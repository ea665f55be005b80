/** Reordering a matrix block by block: a block of `lines` rows and `width` columns becomes contiguous, and inside
    it element (mid, low) goes to place code(mid, low). */
module BlockShuffle {
  import opened Arith

  /** `mid` and `low` undo `code`. */
  datatype Plan = Plan(lines: nat, width: nat, code: (nat, nat) -> nat, mid: nat -> nat, low: nat -> nat)
  {
    function Block(): nat { MulLe(0, lines, width); lines * width }

    ghost predicate Valid() {
      && lines > 0 && width > 0
      && (forall m: nat, l: nat :: m < lines && l < width ==> code(m, l) < Block() && mid(code(m, l)) == m && low(code(m, l)) == l)
      && (forall c: nat :: c < Block() ==> mid(c) < lines && low(c) < width && code(mid(c), low(c)) == c)
    }
  }

  /** Row-major position of (row hi * lines + mid, column blk * width + low) in a matrix of n blocks per row. */
  function Linear(p: Plan, n: nat, hi: nat, mid: nat, blk: nat, low: nat): nat {
    MulLe(0, hi, p.lines);
    MulLe(0, hi * p.lines + mid, n);
    MulLe(0, (hi * p.lines + mid) * n + blk, p.width);
    ((hi * p.lines + mid) * n + blk) * p.width + low
  }

  /** The destination of that element. */
  function Placed(p: Plan, n: nat, hi: nat, blk: nat, code: nat): nat {
    MulLe(0, hi, n);
    MulLe(0, hi * n + blk, p.Block());
    (hi * n + blk) * p.Block() + code
  }

  /** Where source position s goes. */
  function Dest(p: Plan, n: nat, s: nat): nat
    requires p.lines > 0 && p.width > 0 && n > 0
  {
    var u := s / p.width;
    DivMod(s, p.width);
    DivMod(u, n);
    DivMod(u / n, p.lines);
    Placed(p, n, u / n / p.lines, u % n, p.code(u / n % p.lines, s % p.width))
  }

  /** Which source position comes to d. */
  function Source(p: Plan, n: nat, d: nat): nat
    requires p.Block() > 0 && n > 0
  {
    var v, c := d / p.Block(), d % p.Block();
    DivMod(d, p.Block());
    DivMod(v, n);
    Linear(p, n, v / n, p.mid(c), v % n, p.low(c))
  }

  lemma BlockPositive(p: Plan)
    requires p.Valid()
    ensures p.Block() > 0
  {
    MulLt(0, p.lines, p.width);
  }

  lemma LinearParts(p: Plan, n: nat, hi: nat, mid: nat, blk: nat, low: nat)
    requires mid < p.lines && blk < n && low < p.width
    ensures var s := Linear(p, n, hi, mid, blk, low);
      s / p.width / n / p.lines == hi && s / p.width / n % p.lines == mid && s / p.width % n == blk && s % p.width == low
  {
    var line := hi * p.lines + mid;
    MulLe(0, hi, p.lines);
    MulLe(0, line, n);
    DivModUnique(Linear(p, n, hi, mid, blk, low), p.width, line * n + blk, low);
    DivModUnique(line * n + blk, n, line, blk);
    DivModUnique(line, p.lines, hi, mid);
  }

  lemma PlacedParts(p: Plan, n: nat, hi: nat, blk: nat, code: nat)
    requires blk < n && code < p.Block()
    ensures var d := Placed(p, n, hi, blk, code);
      d / p.Block() / n == hi && d / p.Block() % n == blk && d % p.Block() == code
  {
    MulLe(0, hi, n);
    DivModUnique(Placed(p, n, hi, blk, code), p.Block(), hi * n + blk, code);
    DivModUnique(hi * n + blk, n, hi, blk);
  }

  /** The nested loops' destination of an element. */
  lemma DestOf(p: Plan, n: nat, hi: nat, mid: nat, blk: nat, low: nat)
    requires p.Valid() && mid < p.lines && blk < n && low < p.width
    ensures Dest(p, n, Linear(p, n, hi, mid, blk, low)) == Placed(p, n, hi, blk, p.code(mid, low))
  {
    LinearParts(p, n, hi, mid, blk, low);
  }

  /** The size of a matrix of `groups` times `lines` rows. */
  function Size(p: Plan, n: nat, groups: nat): nat { Linear(p, n, groups, 0, 0, 0) }

  lemma LinearBounds(p: Plan, n: nat, groups: nat, hi: nat, mid: nat, blk: nat, low: nat)
    requires mid < p.lines && blk < n && low < p.width
    ensures Linear(p, n, hi, mid, blk, low) < Size(p, n, groups) <==> hi < groups
  {
    var line, rows := hi * p.lines + mid, groups * p.lines;
    if hi < groups {
      RowIndex(hi, mid, groups, p.lines);
      RowIndex(line, blk, rows, n);
      RowIndex(line * n + blk, low, rows * n, p.width);
    } else {
      MulLe(groups, hi, p.lines);
      MulLe(rows, line, n);
      MulLe(rows * n, line * n + blk, p.width);
    }
  }

  lemma SizeIsBlocks(p: Plan, n: nat, groups: nat)
    ensures Size(p, n, groups) == Placed(p, n, groups, 0, 0)
  {
    Associate(groups, p.lines, n);
    Associate(groups, n, p.lines);
    Associate(groups * n, p.lines, p.width);
  }

  lemma PlacedBounds(p: Plan, n: nat, groups: nat, hi: nat, blk: nat, code: nat)
    requires blk < n && code < p.Block()
    ensures Placed(p, n, hi, blk, code) < Size(p, n, groups) <==> hi < groups
  {
    SizeIsBlocks(p, n, groups);
    if hi < groups {
      RowIndex(hi, blk, groups, n);
      RowIndex(hi * n + blk, code, groups * n, p.Block());
    } else {
      MulLe(groups, hi, n);
      MulLe(groups * n, hi * n + blk, p.Block());
    }
  }

  /** Every source position has one destination, from which `Source` recovers it. */
  lemma DestThenSource(p: Plan, n: nat, groups: nat, s: nat)
    requires p.Valid() && n > 0 && s < Size(p, n, groups)
    ensures p.Block() > 0 && Dest(p, n, s) < Size(p, n, groups) && Source(p, n, Dest(p, n, s)) == s
  {
    BlockPositive(p);
    var u := s / p.width;
    DivMod(s, p.width);
    DivMod(u, n);
    DivMod(u / n, p.lines);
    var hi, mid, blk, low := u / n / p.lines, u / n % p.lines, u % n, s % p.width;
    assert s == Linear(p, n, hi, mid, blk, low);
    LinearBounds(p, n, groups, hi, mid, blk, low);
    PlacedBounds(p, n, groups, hi, blk, p.code(mid, low));
    PlacedParts(p, n, hi, blk, p.code(mid, low));
  }

  /** Every destination is reached. */
  lemma SourceThenDest(p: Plan, n: nat, groups: nat, d: nat)
    requires p.Valid() && n > 0 && d < Size(p, n, groups)
    ensures p.Block() > 0 && Source(p, n, d) < Size(p, n, groups) && Dest(p, n, Source(p, n, d)) == d
  {
    BlockPositive(p);
    var v, c := d / p.Block(), d % p.Block();
    DivMod(d, p.Block());
    DivMod(v, n);
    var hi, blk := v / n, v % n;
    assert d == Placed(p, n, hi, blk, c);
    PlacedBounds(p, n, groups, hi, blk, c);
    LinearBounds(p, n, groups, hi, p.mid(c), blk, p.low(c));
    DestOf(p, n, hi, p.mid(c), blk, p.low(c));
  }

  /** The first `count` source positions have arrived. */
  ghost predicate Moved<T(!new)>(p: Plan, n: nat, dst: seq<T>, src: seq<T>, count: nat)
    requires p.lines > 0 && p.width > 0 && n > 0 && count <= |src|
  {
    forall s: nat :: s < count ==> Dest(p, n, s) < |dst| && dst[Dest(p, n, s)] == src[s]
  }

  lemma MoveNext<T(!new)>(p: Plan, n: nat, groups: nat, dst: seq<T>, src: seq<T>, s: nat)
    requires p.Valid() && n > 0 && |src| == |dst| == Size(p, n, groups) && s < |src| && Moved(p, n, dst, src, s)
    ensures Dest(p, n, s) < |dst| && Moved(p, n, dst[Dest(p, n, s) := src[s]], src, s + 1)
  {
    DestThenSource(p, n, groups, s);
    var dst' := dst[Dest(p, n, s) := src[s]];
    forall r: nat | r < s + 1 ensures Dest(p, n, r) < |dst'| && dst'[Dest(p, n, r)] == src[r] {
      DestThenSource(p, n, groups, r);
    }
  }

  /** When all have arrived, the destination read through `Dest` is the source and the other way round. */
  lemma MovedAll<T(!new)>(p: Plan, n: nat, groups: nat, dst: seq<T>, src: seq<T>)
    requires p.Valid() && n > 0 && |src| == |dst| == Size(p, n, groups) && Moved(p, n, dst, src, |src|)
    ensures p.Block() > 0 && forall d: nat :: d < |dst| ==> Source(p, n, d) < |src| && dst[d] == src[Source(p, n, d)]
  {
    BlockPositive(p);
    forall d: nat | d < |dst| ensures Source(p, n, d) < |src| && dst[d] == src[Source(p, n, d)] {
      SourceThenDest(p, n, groups, d);
    }
  }

  /** Carries between the loop indices. */
  lemma Carry(p: Plan, n: nat, hi: nat, mid: nat, blk: nat)
    ensures Linear(p, n, hi, mid, blk, p.width) == Linear(p, n, hi, mid, blk + 1, 0)
    ensures Linear(p, n, hi, mid, n, 0) == Linear(p, n, hi, mid + 1, 0, 0)
    ensures Linear(p, n, hi, p.lines, 0, 0) == Linear(p, n, hi + 1, 0, 0, 0)
  {
    var line := hi * p.lines + mid;
    Distribute(line * n + blk, 1, p.width);
    Distribute(line, 1, n);
    Distribute(hi, 1, p.lines);
  }
}
