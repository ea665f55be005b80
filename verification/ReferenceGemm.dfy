/** `reference_gemm`: the host product with its rows dealt out to threads, over the reals. */
module ReferenceGemm {
  import opened Arith
  import opened TileScheduler

  /** A is m by k, B is n by k, C is m by n or empty. */
  datatype Problem = Problem(a: seq<real>, b: seq<real>, c: seq<real>, m: nat, n: nat, k: nat, alpha: real, beta: real)
  {
    predicate Valid() { |a| == m * k && |b| == n * k && (c == [] || |c| == m * n) }
  }

  /** The rows from `begin` up to `end`, for one thread. */
  datatype Rows = Rows(begin: nat, end: nat)

  /** D and the rows of each thread; without rows there are no threads to divide them among. */
  datatype Outcome = Done(d: seq<real>, pool: seq<Rows>) | DividesByZero

  /** Row x of `a` times row y of `b`, each `width` long, over the first `len` columns. */
  function Dot(a: seq<real>, b: seq<real>, x: nat, y: nat, width: nat, len: nat): real
    requires len <= width && InRow(|a|, x, width) && InRow(|b|, y, width)
  {
    if len == 0 then 0.0 else Dot(a, b, x, y, width, len - 1) + a[x * width + (len - 1)] * b[y * width + (len - 1)]
  }

  /** Row x of a matrix with `size` entries. */
  predicate InRow(size: nat, x: nat, width: nat) { 0 <= x * width && x * width + width <= size }

  lemma RowInside(x: nat, rows: nat, width: nat)
    requires x < rows
    ensures InRow(rows * width, x, width)
  {
    MulLe(x + 1, rows, width);
    Distribute(x, 1, width);
    MulLe(0, x, width);
  }

  /** alpha * A * B^T + beta * C. */
  function Entry(p: Problem, row: nat, col: nat): real
    requires p.Valid() && row < p.m && col < p.n
  {
    RowInside(row, p.m, p.k);
    RowInside(col, p.n, p.k);
    RowIndex(row, col, p.m, p.n);
    p.alpha * Dot(p.a, p.b, row, col, p.k, p.k)
    + if p.beta != 0.0 && p.c != [] then p.beta * p.c[row * p.n + col] else 0.0
  }

  /** Column k of row x is v if it is column j, and zero otherwise. */
  predicate OnlyAt(a: seq<real>, x: nat, width: nat, k: nat, j: nat, v: real) {
    0 <= x * width + k < |a| && a[x * width + k] == if k == j then v else 0.0
  }

  lemma {:induction false} SingleTerm(a: seq<real>, b: seq<real>, x: nat, y: nat, width: nat, len: nat, j: nat, v: real)
    requires len <= width && InRow(|a|, x, width) && InRow(|b|, y, width) && j < width
    requires forall k: nat :: k < width ==> OnlyAt(a, x, width, k, j, v)
    ensures Dot(a, b, x, y, width, len) == if j < len then v * b[y * width + j] else 0.0
  {
    if len > 0 {
      SingleTerm(a, b, x, y, width, len - 1, j, v);
      assert OnlyAt(a, x, width, len - 1, j, v);
    }
  }

  /** A row of A with one non-zero entry, in column j, picks out column j of B, scaled, on top of beta times C. */
  lemma EntryPicks(p: Problem, row: nat, col: nat, j: nat, v: real)
    requires p.Valid() && row < p.m && col < p.n && j < p.k
    requires forall k: nat :: k < p.k ==> OnlyAt(p.a, row, p.k, k, j, v)
    ensures 0 <= col * p.k + j < |p.b| && 0 <= row * p.n + col && (p.c != [] ==> row * p.n + col < |p.c|)
    ensures Entry(p, row, col)
         == p.alpha * (v * p.b[col * p.k + j]) + if p.c == [] then 0.0 else p.beta * p.c[row * p.n + col]
  {
    RowIndex(row, col, p.m, p.n);
    var d := PickedDot(p, row, col, j, v);
    EntryWith(p, row, col, d);
  }

  lemma PickedDot(p: Problem, row: nat, col: nat, j: nat, v: real) returns (d: real)
    requires p.Valid() && row < p.m && col < p.n && j < p.k
    requires forall k: nat :: k < p.k ==> OnlyAt(p.a, row, p.k, k, j, v)
    ensures InRow(|p.a|, row, p.k) && InRow(|p.b|, col, p.k) && 0 <= col * p.k + j < |p.b|
    ensures d == v * p.b[col * p.k + j] == Dot(p.a, p.b, row, col, p.k, p.k)
  {
    RowInside(row, p.m, p.k);
    RowInside(col, p.n, p.k);
    SingleTerm(p.a, p.b, row, col, p.k, p.k, j, v);
    d := v * p.b[col * p.k + j];
  }

  lemma EntryWith(p: Problem, row: nat, col: nat, d: real)
    requires p.Valid() && row < p.m && col < p.n && InRow(|p.a|, row, p.k) && InRow(|p.b|, col, p.k)
    requires 0 <= row * p.n + col && (p.c != [] ==> row * p.n + col < |p.c|) && Dot(p.a, p.b, row, col, p.k, p.k) == d
    ensures Entry(p, row, col) == p.alpha * d + if p.c == [] then 0.0 else p.beta * p.c[row * p.n + col]
  {
    if p.beta == 0.0 && p.c != [] { ZeroTimes(p.c[row * p.n + col]); }
  }

  lemma ZeroTimes(x: real)
    ensures 0.0 * x == 0.0
  {
  }

  lemma {:induction false} SumOfTerms(a: seq<real>, a': seq<real>, sum: seq<real>, b: seq<real>, x: nat, y: nat, width: nat, len: nat)
    requires len <= width && |a| == |a'| == |sum| && InRow(|a|, x, width) && InRow(|b|, y, width)
    requires forall i :: 0 <= i < |a| ==> sum[i] == a[i] + a'[i]
    ensures Dot(sum, b, x, y, width, len) == Dot(a, b, x, y, width, len) + Dot(a', b, x, y, width, len)
  {
    if len > 0 { SumOfTerms(a, a', sum, b, x, y, width, len - 1); }
  }

  /** Without C, the product of a sum of matrices is the sum of their products. */
  lemma EntryAdds(p: Problem, p': Problem, sum: Problem, row: nat, col: nat)
    requires p.Valid() && row < p.m && col < p.n && p.c == [] && |p'.a| == |sum.a| == |p.a|
    requires p' == p.(a := p'.a) && sum == p.(a := sum.a) && forall i :: 0 <= i < |p.a| ==> sum.a[i] == p.a[i] + p'.a[i]
    ensures Entry(sum, row, col) == Entry(p, row, col) + Entry(p', row, col)
  {
    RowInside(row, p.m, p.k);
    RowInside(col, p.n, p.k);
    SumOfTerms(p.a, p'.a, sum.a, p.b, row, col, p.k, p.k);
  }

  predicate EntryAt(p: Problem, d: seq<real>, row: nat, col: nat)
    requires p.Valid() && row < p.m && col < p.n
  {
    0 <= row * p.n + col < |d| && d[row * p.n + col] == Entry(p, row, col)
  }

  /** The rows of one thread are complete, of the last one `cols` entries. */
  ghost predicate Filled(p: Problem, d: seq<real>, begin: nat, end: nat)
    requires p.Valid() && end <= p.m
  {
    forall row: nat, col: nat :: begin <= row < end && col < p.n ==> EntryAt(p, d, row, col)
  }

  ghost predicate SameOutside(p: Problem, was: seq<real>, now: seq<real>, begin: nat, end: nat) {
    |was| == |now| && forall x :: 0 <= x < |now| && !(begin * p.n <= x < end * p.n) ==> now[x] == was[x]
  }

  /** Entries of other rows are not among those written. */
  lemma OtherRows(p: Problem, was: seq<real>, now: seq<real>, begin: nat, end: nat, row: nat, col: nat)
    requires p.Valid() && row < p.m && col < p.n && end <= p.m && SameOutside(p, was, now, begin, end)
    requires (row < begin || end <= row) && EntryAt(p, was, row, col)
    ensures EntryAt(p, now, row, col)
  {
    if row < begin {
      MulLe(row + 1, begin, p.n);
      Distribute(row, 1, p.n);
    } else {
      MulLe(end, row, p.n);
    }
  }

  /** The worker's innermost loop. */
  method Multiply(a: seq<real>, b: seq<real>, x: nat, y: nat, width: nat) returns (acc: real)
    requires InRow(|a|, x, width) && InRow(|b|, y, width)
    ensures acc == Dot(a, b, x, y, width, width)
  {
    acc := 0.0;
    for k := 0 to width
      invariant acc == Dot(a, b, x, y, width, k)
    {
      acc := acc + a[x * width + k] * b[y * width + k];
    }
  }

  /** One entry. */
  method Compute(p: Problem, row: nat, col: nat) returns (v: real)
    requires p.Valid() && row < p.m && col < p.n
    ensures v == Entry(p, row, col)
  {
    RowInside(row, p.m, p.k);
    RowInside(col, p.n, p.k);
    RowIndex(row, col, p.m, p.n);
    var acc := Multiply(p.a, p.b, row, col, p.k);
    v := p.alpha * acc;
    if p.beta != 0.0 && p.c != [] { v := v + p.beta * p.c[row * p.n + col]; }
  }

  method FillRow(p: Problem, d: array<real>, row: nat)
    requires p.Valid() && row < p.m && d.Length == p.m * p.n
    modifies d
    ensures Filled(p, d[..], row, row + 1) && SameOutside(p, old(d[..]), d[..], row, row + 1)
  {
    for col := 0 to p.n
      invariant FilledTo(p, old(d[..]), d[..], row, col)
    {
      RowIndex(row, col, p.m, p.n);
      var v := Compute(p, row, col);
      NextEntry(p, old(d[..]), d[..], row, col, row * p.n + col);
      d[row * p.n + col] := v;
    }
  }

  /** The first `cols` entries of a row are complete and no other row has changed. */
  ghost predicate FilledTo(p: Problem, start: seq<real>, d: seq<real>, row: nat, cols: nat)
    requires p.Valid() && row < p.m && cols <= p.n
  {
    && (forall c: nat :: c < cols ==> EntryAt(p, d, row, c))
    && SameOutside(p, start, d, row, row + 1)
  }

  lemma NextEntry(p: Problem, start: seq<real>, d: seq<real>, row: nat, col: nat, x: nat)
    requires p.Valid() && row < p.m && col < p.n && x == row * p.n + col < |d| && FilledTo(p, start, d, row, col)
    ensures FilledTo(p, start, d[x := Entry(p, row, col)], row, col + 1)
  {
    var now := d[x := Entry(p, row, col)];
    Distribute(row, 1, p.n);
    forall c: nat | c < col + 1 ensures EntryAt(p, now, row, c) {
      if c < col { assert EntryAt(p, d, row, c); }
    }
  }

  /** `worker`. */
  method Worker(p: Problem, d: array<real>, rows: Rows)
    requires p.Valid() && rows.begin <= rows.end <= p.m && d.Length == p.m * p.n
    modifies d
    ensures Filled(p, d[..], rows.begin, rows.end) && SameOutside(p, old(d[..]), d[..], rows.begin, rows.end)
  {
    for row := rows.begin to rows.end
      invariant Filled(p, d[..], rows.begin, row) && SameOutside(p, old(d[..]), d[..], rows.begin, row)
    {
      ghost var was := d[..];
      FillRow(p, d, row);
      NextRow(p, old(d[..]), was, d[..], rows.begin, row);
    }
  }

  lemma NextRow(p: Problem, start: seq<real>, was: seq<real>, now: seq<real>, begin: nat, row: nat)
    requires p.Valid() && begin <= row < p.m
    requires Filled(p, was, begin, row) && Filled(p, now, row, row + 1)
    requires SameOutside(p, start, was, begin, row) && SameOutside(p, was, now, row, row + 1)
    ensures Filled(p, now, begin, row + 1) && SameOutside(p, start, now, begin, row + 1)
  {
    MulLe(begin, row, p.n);
    MulLe(row, row + 1, p.n);
    forall r: nat, col: nat | begin <= r < row + 1 && col < p.n ensures EntryAt(p, now, r, col) {
      if r < row {
        assert EntryAt(p, was, r, col);
        OtherRows(p, was, now, row, row + 1, r, col);
      }
    }
  }

  // ---------------------------------------------------------------- dealing out rows

  /** The pool deals out the rows below `m` one after the other, none of its threads without rows. */
  predicate Contiguous(pool: seq<Rows>, m: nat) {
    && (forall i {:trigger DealtUpTo(pool, i)} :: 0 <= i < |pool| ==> DealtUpTo(pool, i) == pool[i].begin < pool[i].end)
    && DealtUpTo(pool, |pool|) == m
  }

  /** The rows that the first i threads have been given. */
  function DealtUpTo(pool: seq<Rows>, i: nat): nat
    requires i <= |pool|
  {
    if i == 0 then 0 else pool[i - 1].end
  }

  /** Every row belongs to exactly one thread. */
  lemma {:induction false} OneThreadPerRow(pool: seq<Rows>, m: nat, row: nat) returns (i: nat)
    requires Contiguous(pool, m) && row < m
    ensures i < |pool| && pool[i].begin <= row < pool[i].end <= m
    ensures forall j :: 0 <= j < |pool| && pool[j].begin <= row < pool[j].end ==> j == i
  {
    var last := |pool| - 1;
    assert DealtUpTo(pool, last) == pool[last].begin < pool[last].end == DealtUpTo(pool, |pool|);
    if row < pool[last].begin {
      ButLast(pool, m);
      var rest := pool[..last];
      i := OneThreadPerRow(rest, pool[last].begin, row);
      assert rest[i] == pool[i] && i < last;
      forall j | 0 <= j < last && pool[j].begin <= row < pool[j].end ensures j == i { assert rest[j] == pool[j]; }
    } else {
      i := last;
      forall j | 0 <= j < last ensures pool[j].end <= pool[last].begin { EndsBefore(pool, m, j, last); }
    }
  }

  lemma ButLast(pool: seq<Rows>, m: nat)
    requires Contiguous(pool, m) && pool != []
    ensures Contiguous(pool[..|pool| - 1], pool[|pool| - 1].begin)
  {
    var last := |pool| - 1;
    var rest := pool[..last];
    assert DealtUpTo(pool, last) == pool[last].begin;
    forall i | 0 <= i < last ensures DealtUpTo(rest, i) == rest[i].begin < rest[i].end {
      assert DealtUpTo(pool, i) == DealtUpTo(rest, i);
    }
  }

  lemma {:induction false} EndsBefore(pool: seq<Rows>, m: nat, i: nat, j: nat)
    requires Contiguous(pool, m) && i < j < |pool|
    ensures pool[i].end <= pool[j].begin
  {
    assert DealtUpTo(pool, j) == pool[j].begin;
    assert DealtUpTo(pool, j - 1) == pool[j - 1].begin;
    if i < j - 1 { EndsBefore(pool, m, i, j - 1); }
  }

  lemma RangesInside(pool: seq<Rows>, m: nat, i: nat)
    requires Contiguous(pool, m) && i < |pool|
    ensures pool[i].begin < pool[i].end <= m
  {
    assert DealtUpTo(pool, i) == pool[i].begin < pool[i].end;
    var last := |pool| - 1;
    assert DealtUpTo(pool, last) == pool[last].begin < pool[last].end == DealtUpTo(pool, |pool|);
    if i < last { EndsBefore(pool, m, i, last); }
  }

  function Min(a: nat, b: nat): nat { if a < b then a else b }

  lemma OneMore(pool: seq<Rows>, b: nat, e: nat)
    requires Contiguous(pool, b) && b < e
    ensures Contiguous(pool + [Rows(b, e)], e)
  {
    var more := pool + [Rows(b, e)];
    forall i | 0 <= i < |more| ensures DealtUpTo(more, i) == more[i].begin < more[i].end {
      assert DealtUpTo(more, i) == DealtUpTo(pool, i);
    }
  }

  /** Range i starts at row i * chunk and has `chunk` rows, the last one those that remain. */
  predicate Chunked(pool: seq<Rows>, m: nat, chunk: nat) {
    forall i: nat :: i < |pool| ==> IsChunk(pool[i], i, m, chunk)
  }

  predicate IsChunk(r: Rows, i: nat, m: nat, chunk: nat) { r.begin == i * chunk && r.end == Min(m, i * chunk + chunk) }

  /** The ranges of `nthreads` threads, those without rows left out. */
  method Deal(m: nat, nthreads: nat) returns (pool: seq<Rows>)
    requires 0 < nthreads <= m
    ensures Contiguous(pool, m) && |pool| <= nthreads && Chunked(pool, m, CeilDiv(m, nthreads))
  {
    var chunk := CeilDiv(m, nthreads);
    CeilPositive(m, nthreads);
    ghost var dealt := 0;
    pool := [];
    for t := 0 to nthreads
      invariant dealt == t * chunk && Contiguous(pool, Min(m, dealt)) && |pool| <= t
      invariant Chunked(pool, m, chunk) && (dealt < m ==> |pool| == t)
    {
      var b := t * chunk;
      Distribute(t, 1, chunk);
      var e := Min(m, b + chunk);
      if b < e {
        OneMore(pool, b, e);
        pool := pool + [Rows(b, e)];
      }
      dealt := dealt + chunk;
    }
    CeilCovers(m, nthreads);
  }

  /** The numbers of n threads. */
  function Below(n: nat): (s: set<nat>)
    ensures forall i: nat :: i in s <==> i < n
  {
    if n == 0 then {} else Below(n - 1) + {n - 1}
  }

  /** The threads that have finished left their rows complete. */
  ghost predicate Finished(p: Problem, d: seq<real>, pool: seq<Rows>, running: set<nat>)
    requires p.Valid() && Contiguous(pool, p.m)
  {
    forall i: nat :: i < |pool| && i !in running ==> pool[i].end <= p.m && Filled(p, d, pool[i].begin, pool[i].end)
  }

  lemma ThreadDone(p: Problem, was: seq<real>, now: seq<real>, pool: seq<Rows>, running: set<nat>, i: nat)
    requires p.Valid() && Contiguous(pool, p.m) && i < |pool| && pool[i].end <= p.m && Finished(p, was, pool, running)
    requires Filled(p, now, pool[i].begin, pool[i].end) && SameOutside(p, was, now, pool[i].begin, pool[i].end)
    ensures Finished(p, now, pool, running - {i})
  {
    forall j: nat | j < |pool| && j !in running - {i} ensures pool[j].end <= p.m && Filled(p, now, pool[j].begin, pool[j].end) {
      if j != i {
        if j < i { EndsBefore(pool, p.m, j, i); } else { EndsBefore(pool, p.m, i, j); }
        forall row: nat, col: nat | pool[j].begin <= row < pool[j].end && col < p.n ensures EntryAt(p, now, row, col) {
          assert EntryAt(p, was, row, col);
          OtherRows(p, was, now, pool[i].begin, pool[i].end, row, col);
        }
      }
    }
  }

  /** `reference_gemm` on `hardware` cores; the threads write disjoint rows and finish in any order. */
  method ReferenceGemm(p: Problem, hardware: nat) returns (o: Outcome)
    requires p.Valid()
    ensures o == DividesByZero <==> p.m == 0
    ensures o.Done? ==> Contiguous(o.pool, p.m) && Filled(p, o.d, 0, p.m) && |o.d| == p.m * p.n
    ensures o.Done? ==> |o.pool| <= hardware || |o.pool| == 1
    ensures p.m > 0 ==> o.Done? && Chunked(o.pool, p.m, CeilDiv(p.m, Min(if hardware > 1 then hardware else 1, p.m)))
  {
    MulLe(0, p.m, p.n);
    var nthreads := if hardware > 1 then hardware else 1;
    nthreads := Min(nthreads, p.m);
    if nthreads == 0 { return DividesByZero; }
    var d := new real[p.m * p.n](_ => 0.0);
    var pool := Deal(p.m, nthreads);
    var running := Below(|pool|);
    while running != {}
      invariant Finished(p, d[..], pool, running) && running <= Below(|pool|)
      decreases |running|
    {
      var i: nat :| i in running;
      RangesInside(pool, p.m, i);
      ghost var was := d[..];
      Worker(p, d, pool[i]);
      ThreadDone(p, was, d[..], pool, running, i);
      running := running - {i};
    }
    forall row: nat, col: nat | row < p.m && col < p.n ensures EntryAt(p, d[..], row, col) {
      var i := OneThreadPerRow(pool, p.m, row);
    }
    return Done(d[..], pool);
  }
}
