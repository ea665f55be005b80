/** The host-side layouts of `f4gemm_ref.hpp`: `shuffle_weight_16x16` and `shuffle_scale`. */
module Preshuffle {
  import opened Arith
  import opened BlockShuffle
  import opened TileScheduler

  type byte = b: nat | b < 256

  /** 2^0 as a scale: the padding of `shuffle_scale`. */
  const PAD: byte := 0x7F

  /** Inside a block of 16 rows by 32 bytes. */
  function WeightCode(m: nat, l: nat): nat { l / 16 * 256 + m * 16 + l % 16 }
  function WeightMid(c: nat): nat { c / 16 % 16 }
  function WeightLow(c: nat): nat { c / 256 * 16 + c % 16 }

  function Weight(): (p: Plan)
    ensures p.lines == 16 && p.width == 32 && p.Block() == 512
  {
    Plan(16, 32, WeightCode, WeightMid, WeightLow)
  }

  /** Inside a block of 32 rows by 8 scales. */
  function ScaleCode(m: nat, l: nat): nat { l % 4 * 64 + m % 16 * 4 + l / 4 * 2 + m / 16 }
  function ScaleMid(c: nat): nat { c % 2 * 16 + c / 4 % 16 }
  function ScaleLow(c: nat): nat { c / 2 % 2 * 4 + c / 64 }

  function Scale(): (p: Plan)
    ensures p.lines == 32 && p.width == 8 && p.Block() == 256
  {
    Plan(32, 8, ScaleCode, ScaleMid, ScaleLow)
  }

  lemma WeightCodeParts(m: nat, a: nat, b: nat)
    requires m < 16 && a < 2 && b < 16
    ensures var c := WeightCode(m, a * 16 + b);
      c == a * 256 + m * 16 + b && c < 512 && WeightMid(c) == m && WeightLow(c) == a * 16 + b
  {
    DivModUnique(a * 16 + b, 16, a, b);
    var c := a * 256 + m * 16 + b;
    DivModUnique(c, 16, a * 16 + m, b);
    DivModUnique(a * 16 + m, 16, a, m);
    DivModUnique(c, 256, a, m * 16 + b);
  }

  lemma WeightEncode(m: nat, l: nat)
    requires m < 16 && l < 32
    ensures WeightCode(m, l) < 512 && WeightMid(WeightCode(m, l)) == m && WeightLow(WeightCode(m, l)) == l
  {
    DivMod(l, 16);
    WeightCodeParts(m, l / 16, l % 16);
  }

  lemma WeightDecode(c: nat)
    requires c < 512
    ensures WeightMid(c) < 16 && WeightLow(c) < 32 && WeightCode(WeightMid(c), WeightLow(c)) == c
  {
    var q := c / 16;
    DivMod(c, 16);
    DivMod(q, 16);
    DivModUnique(c, 256, q / 16, q % 16 * 16 + c % 16);
    WeightCodeParts(q % 16, q / 16, c % 16);
  }

  lemma WeightValid()
    ensures Weight().Valid()
  {
    forall m: nat, l: nat | m < 16 && l < 32
      ensures WeightCode(m, l) < 512 && WeightMid(WeightCode(m, l)) == m && WeightLow(WeightCode(m, l)) == l
    {
      WeightEncode(m, l);
    }
    forall c: nat | c < 512
      ensures WeightMid(c) < 16 && WeightLow(c) < 32 && WeightCode(WeightMid(c), WeightLow(c)) == c
    {
      WeightDecode(c);
    }
  }

  lemma ScaleCodeParts(a: nat, b: nat, d: nat, e: nat)
    requires a < 2 && b < 16 && d < 2 && e < 4
    ensures var c := ScaleCode(a * 16 + b, d * 4 + e);
      c == e * 64 + b * 4 + d * 2 + a && c < 256 && ScaleMid(c) == a * 16 + b && ScaleLow(c) == d * 4 + e
  {
    DivModUnique(d * 4 + e, 4, d, e);
    DivModUnique(a * 16 + b, 16, a, b);
    var c := e * 64 + b * 4 + d * 2 + a;
    DivModUnique(c, 2, e * 32 + b * 2 + d, a);
    DivModUnique(e * 32 + b * 2 + d, 2, e * 16 + b, d);
    DivModUnique(c, 4, e * 16 + b, d * 2 + a);
    DivModUnique(e * 16 + b, 16, e, b);
    DivModUnique(c, 64, e, b * 4 + d * 2 + a);
  }

  lemma ScaleEncode(m: nat, l: nat)
    requires m < 32 && l < 8
    ensures ScaleCode(m, l) < 256 && ScaleMid(ScaleCode(m, l)) == m && ScaleLow(ScaleCode(m, l)) == l
  {
    DivMod(m, 16);
    DivMod(l, 4);
    ScaleCodeParts(m / 16, m % 16, l / 4, l % 4);
  }

  lemma ScaleDigits(c: nat)
    requires c < 256
    ensures c == c / 64 * 64 + c / 4 % 16 * 4 + c / 2 % 2 * 2 + c % 2
    ensures 0 <= c / 64 < 4 && 0 <= c / 4 % 16 < 16 && 0 <= c / 2 % 2 < 2
  {
    var h, q := c / 2, c / 4;
    DivMod(c, 2);
    DivMod(h, 2);
    DivModUnique(c, 4, h / 2, h % 2 * 2 + c % 2);
    DivMod(q, 16);
    DivModUnique(c, 64, q / 16, q % 16 * 4 + c % 4);
  }

  lemma ScaleDecode(c: nat)
    requires c < 256
    ensures ScaleMid(c) < 32 && ScaleLow(c) < 8 && ScaleCode(ScaleMid(c), ScaleLow(c)) == c
  {
    ScaleDigits(c);
    ScaleCodeParts(c % 2, c / 4 % 16, c / 2 % 2, c / 64);
  }

  lemma ScaleValid()
    ensures Scale().Valid()
  {
    forall m: nat, l: nat | m < 32 && l < 8
      ensures ScaleCode(m, l) < 256 && ScaleMid(ScaleCode(m, l)) == m && ScaleLow(ScaleCode(m, l)) == l
    {
      ScaleEncode(m, l);
    }
    forall c: nat | c < 256
      ensures ScaleMid(c) < 32 && ScaleLow(c) < 8 && ScaleCode(ScaleMid(c), ScaleLow(c)) == c
    {
      ScaleDecode(c);
    }
  }

  ghost predicate Filled<T(!new)>(p: Plan, n: nat, dst: seq<T>, src: seq<T>, count: nat)
    requires p.lines > 0 && p.width > 0
  {
    count <= |src| && (n > 0 ==> Moved(p, n, dst, src, count))
  }

  /** One assignment of the nested loops. */
  lemma FillNext<T(!new)>(p: Plan, n: nat, groups: nat, hi: nat, mid: nat, blk: nat, low: nat, dst: seq<T>, src: seq<T>, dst': seq<T>)
    requires p.Valid() && |src| == |dst| == Size(p, n, groups)
    requires hi < groups && mid < p.lines && blk < n && low < p.width
    requires Filled(p, n, dst, src, Linear(p, n, hi, mid, blk, low))
    ensures var s, d := Linear(p, n, hi, mid, blk, low), Placed(p, n, hi, blk, p.code(mid, low));
      s < |src| && d < |dst| && (dst' == dst[d := src[s]] ==> Filled(p, n, dst', src, Linear(p, n, hi, mid, blk, low + 1)))
  {
    LinearBounds(p, n, groups, hi, mid, blk, low);
    DestOf(p, n, hi, mid, blk, low);
    MoveNext(p, n, groups, dst, src, Linear(p, n, hi, mid, blk, low));
  }

  /** Source and destination index of the loops of `shuffle_weight_16x16`. */
  function WeightFrom(kp: nat, n0: nat, n1: nat, k0: nat, k1: nat, k2: nat): int {
    (n0 * 16 + n1) * kp + k0 * 32 + k1 * 16 + k2
  }

  function WeightTo(nk: nat, n0: nat, n1: nat, k0: nat, k1: nat, k2: nat): int {
    (((n0 * nk + k0) * 2 + k1) * 16 + n1) * 16 + k2
  }

  lemma LineScaled(line: nat, n: nat, width: nat, blk: nat)
    ensures line * (n * width) + blk * width == (line * n + blk) * width
  {
    Associate(line, n, width);
    Distribute(line * n, blk, width);
  }

  lemma BlockScaled(blk: int, k1: nat, n1: nat, k2: nat)
    ensures ((blk * 2 + k1) * 16 + n1) * 16 + k2 == blk * 512 + (k1 * 256 + n1 * 16 + k2)
  {
  }

  lemma FromRow(cols: nat, row: nat, col: nat, n0: nat, n1: nat, k0: nat, k1: nat, k2: nat)
    requires row == n0 * 16 + n1 && col == k0 * 32 + k1 * 16 + k2
    ensures WeightFrom(cols, n0, n1, k0, k1, k2) == row * cols + col
  {
  }

  lemma LinearRow(nk: nat, n0: nat, n1: nat, k0: nat, low: nat)
    ensures Linear(Weight(), nk, n0, n1, k0, low) == ((n0 * 16 + n1) * nk + k0) * 32 + low
  {
  }

  lemma WeightIndices(nk: nat, n0: nat, n1: nat, k0: nat, k1: nat, k2: nat)
    requires n1 < 16 && k0 < nk && k1 < 2 && k2 < 16
    ensures WeightFrom(nk * 32, n0, n1, k0, k1, k2) == Linear(Weight(), nk, n0, n1, k0, k1 * 16 + k2)
    ensures WeightTo(nk, n0, n1, k0, k1, k2) == Placed(Weight(), nk, n0, k0, Weight().code(n1, k1 * 16 + k2))
  {
    FromRow(nk * 32, n0 * 16 + n1, k0 * 32 + k1 * 16 + k2, n0, n1, k0, k1, k2);
    LineScaled(n0 * 16 + n1, nk, 32, k0);
    LinearRow(nk, n0, n1, k0, k1 * 16 + k2);
    WeightPlaced(nk, n0, n1, k0, k1, k2);
  }

  lemma WeightPlaced(nk: nat, n0: nat, n1: nat, k0: nat, k1: nat, k2: nat)
    requires n1 < 16 && k1 < 2 && k2 < 16
    ensures WeightTo(nk, n0, n1, k0, k1, k2) == Placed(Weight(), nk, n0, k0, Weight().code(n1, k1 * 16 + k2))
  {
    BlockScaled(n0 * nk + k0, k1, n1, k2);
    WeightCodeParts(n1, k1, k2);
  }

  /** `groups` times 16 rows of `nk` times 32 bytes. */
  lemma WeightSize(groups: nat, nk: nat)
    ensures groups * 16 * (nk * 32) == Size(Weight(), nk, groups)
  {
    Associate(groups * 16, nk, 32);
  }

  /** The part of an n by kp source that whole blocks cover: `rows` rows of `cols` bytes. */
  function Covered(src: seq<byte>, n: nat, kp: nat, rows: nat, cols: nat): (part: seq<byte>)
    requires |src| == n * kp && rows <= n && cols <= kp && rows * cols >= 0
    ensures |part| == rows * cols
    ensures forall r: nat, c: nat :: r < rows && c < cols ==> CoveredAt(src, kp, part, cols, r, c)
  {
    CoveredRows(src, n, kp, rows, cols);
    seq(rows * cols, s requires 0 <= s < rows * cols => PartAt(src, n, kp, rows, cols, s))
  }

  function PartAt(src: seq<byte>, n: nat, kp: nat, rows: nat, cols: nat, s: nat): byte
    requires |src| == n * kp && rows <= n && cols <= kp && s < rows * cols
  {
    PartInside(n, kp, rows, cols, s);
    src[s / cols * kp + s % cols]
  }

  lemma PartInside(n: nat, kp: nat, rows: nat, cols: nat, s: nat)
    requires rows <= n && cols <= kp && s < rows * cols
    ensures cols > 0 && 0 <= s / cols < rows && 0 <= s / cols * kp && s / cols * kp + s % cols < n * kp
  {
    if cols == 0 { MulLe(rows, rows, cols); }
    DivMod(s, cols);
    DivLt(s, cols, rows);
    MulLe(0, s / cols, kp);
    RowIndex(s / cols, s % cols, n, kp);
  }

  predicate CoveredAt(src: seq<byte>, kp: nat, part: seq<byte>, cols: nat, r: nat, c: nat) {
    && 0 <= r * cols + c < |part| && 0 <= r * kp + c < |src|
    && part[r * cols + c] == src[r * kp + c]
  }

  lemma CoveredRows(src: seq<byte>, n: nat, kp: nat, rows: nat, cols: nat)
    requires |src| == n * kp && rows <= n && cols <= kp && rows * cols >= 0
    ensures var part := seq(rows * cols, s requires 0 <= s < rows * cols => PartAt(src, n, kp, rows, cols, s));
      forall r: nat, c: nat :: r < rows && c < cols ==> CoveredAt(src, kp, part, cols, r, c)
  {
    var part := seq(rows * cols, s requires 0 <= s < rows * cols => PartAt(src, n, kp, rows, cols, s));
    forall r: nat, c: nat | r < rows && c < cols ensures CoveredAt(src, kp, part, cols, r, c) {
      RowIndex(r, c, rows, cols);
      RowIndex(r, c, n, kp);
      DivModUnique(r * cols + c, cols, r, c);
    }
  }

  /** What the loops have done when they reach position `count` of the covered part: its bytes moved, the rest of the
      destination still zero. */
  ghost predicate WeightsMoved(out: seq<byte>, part: seq<byte>, nk: nat, count: nat) {
    && |part| <= |out| && Filled(Weight(), nk, out[..|part|], part, count)
    && forall x :: |part| <= x < |out| ==> out[x] == 0
  }

  /** `shuffle_weight_16x16`: the rows and columns that fill whole blocks are moved to theirs, and what is left of the
      destination stays zero. */
  method ShuffleWeight16x16(src: seq<byte>, n: nat, kp: nat) returns (dst: seq<byte>)
    requires |src| == n * kp
    ensures |dst| == |src| && n / 16 * 16 * (kp / 32 * 32) >= 0
    ensures var part := Covered(src, n, kp, n / 16 * 16, kp / 32 * 32); WeightsMoved(dst, part, kp / 32, |part|)
  {
    var nk := kp / 32;
    WeightValid();
    WeightSize(n / 16, nk);
    MulLe(n / 16 * 16, n, nk * 32);
    MulLe(nk * 32, kp, n);
    ghost var part := Covered(src, n, kp, n / 16 * 16, nk * 32);
    var out := new byte[|src|](_ => 0);
    for n0 := 0 to n / 16
      invariant WeightsMoved(out[..], part, nk, Linear(Weight(), nk, n0, 0, 0, 0))
    {
      for n1 := 0 to 16
        invariant WeightsMoved(out[..], part, nk, Linear(Weight(), nk, n0, n1, 0, 0))
      {
        for k0 := 0 to nk
          invariant WeightsMoved(out[..], part, nk, Linear(Weight(), nk, n0, n1, k0, 0))
        {
          for k1 := 0 to 2
            invariant WeightsMoved(out[..], part, nk, Linear(Weight(), nk, n0, n1, k0, k1 * 16))
          {
            for k2 := 0 to 16
              invariant WeightsMoved(out[..], part, nk, Linear(Weight(), nk, n0, n1, k0, k1 * 16 + k2))
            {
              MoveWeight(src, n, kp, out, part, n0, n1, k0, k1, k2);
            }
          }
          Carry(Weight(), nk, n0, n1, k0);
        }
        Carry(Weight(), nk, n0, n1, 0);
      }
      Carry(Weight(), nk, n0, 0, 0);
    }
    dst := out[..];
  }

  /** The innermost assignment. */
  method MoveWeight(src: seq<byte>, n: nat, kp: nat, out: array<byte>, ghost part: seq<byte>, n0: nat, n1: nat, k0: nat, k1: nat, k2: nat)
    requires |src| == n * kp && n0 < n / 16 && n1 < 16 && k0 < kp / 32 && k1 < 2 && k2 < 16
    requires n / 16 * 16 * (kp / 32 * 32) >= 0 && part == Covered(src, n, kp, n / 16 * 16, kp / 32 * 32)
    requires WeightsMoved(out[..], part, kp / 32, Linear(Weight(), kp / 32, n0, n1, k0, k1 * 16 + k2))
    modifies out
    ensures WeightsMoved(out[..], part, kp / 32, Linear(Weight(), kp / 32, n0, n1, k0, k1 * 16 + k2 + 1))
  {
    var nk := kp / 32;
    var s, d := WeightFrom(kp, n0, n1, k0, k1, k2), WeightTo(nk, n0, n1, k0, k1, k2);
    WeightStep(src, n, kp, part, out[..], n0, n1, k0, k1, k2);
    out[d] := src[s];
  }

  lemma WeightStep(src: seq<byte>, n: nat, kp: nat, part: seq<byte>, was: seq<byte>, n0: nat, n1: nat, k0: nat, k1: nat, k2: nat)
    requires |src| == n * kp && n0 < n / 16 && n1 < 16 && k0 < kp / 32 && k1 < 2 && k2 < 16
    requires n / 16 * 16 * (kp / 32 * 32) >= 0 && part == Covered(src, n, kp, n / 16 * 16, kp / 32 * 32)
    requires WeightsMoved(was, part, kp / 32, Linear(Weight(), kp / 32, n0, n1, k0, k1 * 16 + k2))
    ensures var s, d := WeightFrom(kp, n0, n1, k0, k1, k2), WeightTo(kp / 32, n0, n1, k0, k1, k2);
      && 0 <= s < |src| && 0 <= d < |was|
      && WeightsMoved(was[d := src[s]], part, kp / 32, Linear(Weight(), kp / 32, n0, n1, k0, k1 * 16 + k2 + 1))
  {
    WeightSize(n / 16, kp / 32);
    WeightValid();
    CoveredElement(src, n, kp, part, n0, n1, k0, k1, k2);
    PartElement(src, kp, part, kp / 32 * 32, n0 * 16 + n1, k0 * 32 + k1 * 16 + k2, kp / 32, n0, n1, k0, k1, k2);
    PartMoved(part, was, n / 16, kp / 32, n0, n1, k0, k1 * 16 + k2);
  }

  /** The byte that the loops read is that of the covered part, and its place the one of the permuted view. */
  lemma PartElement(src: seq<byte>, kp: nat, part: seq<byte>, cols: nat, row: nat, col: nat,
                    nk: nat, n0: nat, n1: nat, k0: nat, k1: nat, k2: nat)
    requires n1 < 16 && k0 < nk && k1 < 2 && k2 < 16
    requires cols == nk * 32 && row == n0 * 16 + n1 && col == k0 * 32 + k1 * 16 + k2 && CoveredAt(src, kp, part, cols, row, col)
    ensures var s, at := WeightFrom(kp, n0, n1, k0, k1, k2), Linear(Weight(), nk, n0, n1, k0, k1 * 16 + k2);
      && 0 <= s < |src| && at < |part| && part[at] == src[s]
    ensures WeightTo(nk, n0, n1, k0, k1, k2) == Placed(Weight(), nk, n0, k0, Weight().code(n1, k1 * 16 + k2))
  {
    WeightIndices(nk, n0, n1, k0, k1, k2);
    FromRow(cols, row, col, n0, n1, k0, k1, k2);
    FromRow(kp, row, col, n0, n1, k0, k1, k2);
  }

  lemma CoveredElement(src: seq<byte>, n: nat, kp: nat, part: seq<byte>, n0: nat, n1: nat, k0: nat, k1: nat, k2: nat)
    requires |src| == n * kp && n / 16 * 16 * (kp / 32 * 32) >= 0 && part == Covered(src, n, kp, n / 16 * 16, kp / 32 * 32)
    requires n0 < n / 16 && n1 < 16 && k0 < kp / 32 && k1 < 2 && k2 < 16
    ensures CoveredAt(src, kp, part, kp / 32 * 32, n0 * 16 + n1, k0 * 32 + k1 * 16 + k2)
  {
  }

  lemma PartMoved(part: seq<byte>, was: seq<byte>, groups: nat, nk: nat, hi: nat, mid: nat, blk: nat, low: nat)
    requires Weight().Valid() && |part| == Size(Weight(), nk, groups) && hi < groups && mid < 16 && blk < nk && low < 32
    requires WeightsMoved(was, part, nk, Linear(Weight(), nk, hi, mid, blk, low))
    ensures var at, d := Linear(Weight(), nk, hi, mid, blk, low), Placed(Weight(), nk, hi, blk, Weight().code(mid, low));
      at < |part| && d < |part| && WeightsMoved(was[d := part[at]], part, nk, Linear(Weight(), nk, hi, mid, blk, low + 1))
  {
    var at, d := Linear(Weight(), nk, hi, mid, blk, low), Placed(Weight(), nk, hi, blk, Weight().code(mid, low));
    var short := was[..|part|];
    FillNext(Weight(), nk, groups, hi, mid, blk, low, short, part, short);
    FillNext(Weight(), nk, groups, hi, mid, blk, low, short, part, short[d := part[at]]);
    assert was[d := part[at]][..|part|] == short[d := part[at]];
  }

  // ---------------------------------------------------------------- scales

  /** Source and destination index of the loops of `shuffle_scale`. */
  function ScaleFrom(n3: nat, d0: nat, d1: nat, d2: nat, d3: nat, d4: nat, d5: nat): int {
    (d0 * 32 + d1 * 16 + d2) * (n3 * 8) + d3 * 8 + d4 * 4 + d5
  }

  function ScaleTo(n3: nat, d0: nat, d1: nat, d2: nat, d3: nat, d4: nat, d5: nat): int {
    ((((d0 * n3 + d3) * 4 + d5) * 16 + d2) * 2 + d4) * 2 + d1
  }

  lemma ScaleIndices(n3: nat, d0: nat, d1: nat, d2: nat, d3: nat, d4: nat, d5: nat)
    requires d1 < 2 && d2 < 16 && d3 < n3 && d4 < 2 && d5 < 4
    ensures ScaleFrom(n3, d0, d1, d2, d3, d4, d5) == Linear(Scale(), n3, d0, d1 * 16 + d2, d3, d4 * 4 + d5)
    ensures ScaleTo(n3, d0, d1, d2, d3, d4, d5) == Placed(Scale(), n3, d0, d3, Scale().code(d1 * 16 + d2, d4 * 4 + d5))
  {
    LineScaled(d0 * 32 + d1 * 16 + d2, n3, 8, d3);
    ScalesScaled(d0 * n3 + d3, d1, d2, d4, d5);
    ScaleCodeParts(d1, d2, d4, d5);
  }

  lemma ScalesScaled(blk: int, d1: nat, d2: nat, d4: nat, d5: nat)
    ensures (((blk * 4 + d5) * 16 + d2) * 2 + d4) * 2 + d1 == blk * 256 + (d5 * 64 + d2 * 4 + d4 * 2 + d1)
  {
  }

  lemma ScaleSize(groups: nat, n3: nat)
    ensures groups * 32 * (n3 * 8) == Size(Scale(), n3, groups)
  {
    Associate(groups * 32, n3, 8);
  }

  /** A source of rows by cols in a buffer of sm by sn. */
  ghost predicate Padded(padded: seq<byte>, src: seq<byte>, rows: nat, cols: nat, sm: nat, sn: nat) {
    && |padded| == sm * sn
    && forall r: nat, c: nat :: r < sm && c < sn ==> Holds(padded, src, rows, cols, sn, r, c)
  }

  predicate Holds(padded: seq<byte>, src: seq<byte>, rows: nat, cols: nat, sn: nat, r: nat, c: nat) {
    && 0 <= r * sn + c < |padded|
    && if r < rows && c < cols then 0 <= r * cols + c < |src| && padded[r * sn + c] == src[r * cols + c] else padded[r * sn + c] == PAD
  }

  /** `memcpy` of one row. */
  function CopyRow(padded: seq<byte>, src: seq<byte>, at: nat, from: nat, count: nat): (copied: seq<byte>)
    requires at + count <= |padded| && from + count <= |src|
    ensures |copied| == |padded|
    ensures forall x :: 0 <= x < |copied| ==> copied[x] == if at <= x < at + count then src[from + x - at] else padded[x]
  {
    padded[..at] + src[from..from + count] + padded[at + count..]
  }

  lemma PadNext(was: seq<byte>, now: seq<byte>, src: seq<byte>, r: nat, cols: nat, sn: nat, r': nat, c: nat, at: nat, from: nat)
    requires Holds(was, src, r, cols, sn, r', c) && c < sn && cols <= sn && at == r * sn && from == r * cols
    requires at + cols <= |was| && from + cols <= |src| && now == CopyRow(was, src, at, from, cols)
    ensures Holds(now, src, r + 1, cols, sn, r', c)
  {
    RowsApart(r, r', c, cols, sn);
  }

  /** The source inside a buffer of scales of 1.0. */
  method Pad(src: seq<byte>, rows: nat, cols: nat, sm: nat, sn: nat) returns (padded: seq<byte>)
    requires |src| == rows * cols && rows <= sm && cols <= sn
    ensures Padded(padded, src, rows, cols, sm, sn)
  {
    MulLe(0, sm, sn);
    padded := seq(sm * sn, _ => PAD);
    forall r: nat, c: nat | r < sm && c < sn ensures Holds(padded, src, 0, cols, sn, r, c) { RowIndex(r, c, sm, sn); }
    for r := 0 to rows
      invariant Padded(padded, src, r, cols, sm, sn)
    {
      RowInside(r, rows, cols);
      RowInside(r, sm, sn);
      ghost var was := padded;
      padded := CopyRow(padded, src, r * sn, r * cols, cols);
      PadRow(was, padded, src, r, cols, sm, sn);
    }
  }

  lemma PadRow(was: seq<byte>, now: seq<byte>, src: seq<byte>, r: nat, cols: nat, sm: nat, sn: nat)
    requires Padded(was, src, r, cols, sm, sn) && cols <= sn && 0 <= r * sn && 0 <= r * cols
    requires r * sn + cols <= |was| && r * cols + cols <= |src| && now == CopyRow(was, src, r * sn, r * cols, cols)
    ensures Padded(now, src, r + 1, cols, sm, sn)
  {
    var next := r + 1;
    forall r': nat, c: nat | r' < sm && c < sn ensures Holds(now, src, next, cols, sn, r', c) {
      PadNext(was, now, src, r, cols, sn, r', c, r * sn, r * cols);
    }
  }

  lemma RowInside(r: nat, rows: nat, cols: nat)
    requires r < rows
    ensures 0 <= r * cols && r * cols + cols <= rows * cols
  {
    Distribute(r, 1, cols);
    MulLe(r + 1, rows, cols);
  }

  /** Writing the first `cols` places of row r leaves all others alone. */
  lemma RowsApart(r: nat, r': nat, c: nat, cols: nat, sn: nat)
    requires c < sn && cols <= sn
    ensures r' < r ==> r' * sn + c < r * sn
    ensures r' > r ==> r * sn + cols <= r' * sn + c
  {
    if r' < r { Distribute(r', 1, sn); MulLe(r' + 1, r, sn); }
    if r' > r { Distribute(r, 1, sn); MulLe(r + 1, r', sn); }
  }

  /** Place d of the shuffled scales holds a pad exactly when the element it comes from lies outside the source;
      otherwise it holds that element. */
  predicate ScaleAt(src: seq<byte>, dst: seq<byte>, rows: nat, cols: nat, n3: nat, d: nat) {
    n3 > 0 && d < |dst|
    && var s, sn := Source(Scale(), n3, d), n3 * 8;
       var r, c := s / sn, s % sn;
       if r < rows && c < cols then 0 <= r * cols + c < |src| && dst[d] == src[r * cols + c] else dst[d] == PAD
  }

  /** `shuffle_scale`, with the source padded to sm by sn. */
  method ShuffleScale(src: seq<byte>, rows: nat, cols: nat, sm: nat, sn: nat) returns (dst: seq<byte>)
    requires |src| == rows * cols && rows <= sm && cols <= sn && sm % 32 == 0 && sn % 8 == 0
    ensures |dst| == sm * sn && forall d: nat :: d < |dst| ==> ScaleAt(src, dst, rows, cols, sn / 8, d)
  {
    var n3 := sn / 8;
    var buffer := Pad(src, rows, cols, sm, sn);
    ScaleValid();
    ScaleSize(sm / 32, n3);
    assert sm * sn == sm / 32 * 32 * (n3 * 8);
    var out := new byte[|buffer|](_ => 0);
    for d0 := 0 to sm / 32
      invariant Filled(Scale(), n3, out[..], buffer, Linear(Scale(), n3, d0, 0, 0, 0))
    {
      for d1 := 0 to 2
        invariant Filled(Scale(), n3, out[..], buffer, Linear(Scale(), n3, d0, d1 * 16, 0, 0))
      {
        for d2 := 0 to 16
          invariant Filled(Scale(), n3, out[..], buffer, Linear(Scale(), n3, d0, d1 * 16 + d2, 0, 0))
        {
          for d3 := 0 to n3
            invariant Filled(Scale(), n3, out[..], buffer, Linear(Scale(), n3, d0, d1 * 16 + d2, d3, 0))
          {
            for d4 := 0 to 2
              invariant Filled(Scale(), n3, out[..], buffer, Linear(Scale(), n3, d0, d1 * 16 + d2, d3, d4 * 4))
            {
              for d5 := 0 to 4
                invariant Filled(Scale(), n3, out[..], buffer, Linear(Scale(), n3, d0, d1 * 16 + d2, d3, d4 * 4 + d5))
              {
                MoveScale(buffer, out, sm / 32, n3, d0, d1, d2, d3, d4, d5);
              }
            }
            Carry(Scale(), n3, d0, d1 * 16 + d2, d3);
          }
          Carry(Scale(), n3, d0, d1 * 16 + d2, 0);
        }
      }
      Carry(Scale(), n3, d0, 0, 0);
    }
    dst := out[..];
    assert sn == 0 ==> |dst| == 0;
    forall d: nat | d < |dst| ensures ScaleAt(src, dst, rows, cols, n3, d) {
      ScaleLayout(src, buffer, dst, rows, cols, sm / 32, n3, d);
    }
  }

  /** The innermost assignment. */
  method MoveScale(padded: seq<byte>, out: array<byte>, ghost groups: nat, n3: nat, d0: nat, d1: nat, d2: nat, d3: nat, d4: nat, d5: nat)
    requires d0 < groups && d1 < 2 && d2 < 16 && d3 < n3 && d4 < 2 && d5 < 4
    requires |padded| == out.Length == Size(Scale(), n3, groups)
    requires Filled(Scale(), n3, out[..], padded, Linear(Scale(), n3, d0, d1 * 16 + d2, d3, d4 * 4 + d5))
    modifies out
    ensures Filled(Scale(), n3, out[..], padded, Linear(Scale(), n3, d0, d1 * 16 + d2, d3, d4 * 4 + d5 + 1))
  {
    ScaleValid();
    ScaleIndices(n3, d0, d1, d2, d3, d4, d5);
    var s, d := ScaleFrom(n3, d0, d1, d2, d3, d4, d5), ScaleTo(n3, d0, d1, d2, d3, d4, d5);
    FillNext(Scale(), n3, groups, d0, d1 * 16 + d2, d3, d4 * 4 + d5, out[..], padded, out[..]);
    ghost var was := out[..];
    out[d] := padded[s];
    FillNext(Scale(), n3, groups, d0, d1 * 16 + d2, d3, d4 * 4 + d5, was, padded, out[..]);
  }

  // ---------------------------------------------------------------- what the layouts are

  /** The shuffled weights hold source byte (n0 * 16 + n1, k0 * 32 + k1 * 16 + k2) at place (n0, k0, k1, n1, k2) of the
      permuted view, and the inverse map leads from there back to it. */
  lemma WeightLayout(src: seq<byte>, dst: seq<byte>, n: nat, kp: nat, n0: nat, n1: nat, k0: nat, k1: nat, k2: nat)
    requires |src| == |dst| == n * kp && n / 16 * 16 * (kp / 32 * 32) >= 0
    requires var part := Covered(src, n, kp, n / 16 * 16, kp / 32 * 32); WeightsMoved(dst, part, kp / 32, |part|)
    requires n0 < n / 16 && n1 < 16 && k0 < kp / 32 && k1 < 2 && k2 < 16
    ensures var s, d := WeightFrom(kp, n0, n1, k0, k1, k2), WeightTo(kp / 32, n0, n1, k0, k1, k2);
      && 0 <= s < |src| && 0 <= d < |dst| && dst[d] == src[s]
      && Source(Weight(), kp / 32, d) == WeightFrom(kp / 32 * 32, n0, n1, k0, k1, k2)
  {
    var part := Covered(src, n, kp, n / 16 * 16, kp / 32 * 32);
    WeightValid();
    WeightSize(n / 16, kp / 32);
    CoveredElement(src, n, kp, part, n0, n1, k0, k1, k2);
    PartElement(src, kp, part, kp / 32 * 32, n0 * 16 + n1, k0 * 32 + k1 * 16 + k2, kp / 32, n0, n1, k0, k1, k2);
    WeightIndices(kp / 32, n0, n1, k0, k1, k2);
    MovedElement(Weight(), kp / 32, n / 16, dst[..|part|], part, n0, n1, k0, k1 * 16 + k2);
  }

  /** In plain numbers: a block of 16 rows by 32 bytes becomes 512 bytes in a row, its left 16 columns first, each half row
      by row. */
  lemma WeightBytes(src: seq<byte>, dst: seq<byte>, n: nat, kp: nat, n0: nat, n1: nat, k0: nat, k1: nat, k2: nat)
    requires |src| == |dst| == n * kp && n / 16 * 16 * (kp / 32 * 32) >= 0
    requires var part := Covered(src, n, kp, n / 16 * 16, kp / 32 * 32); WeightsMoved(dst, part, kp / 32, |part|)
    requires n0 < n / 16 && n1 < 16 && k0 < kp / 32 && k1 < 2 && k2 < 16
    ensures var row, col, block := n0 * 16 + n1, k0 * 32 + k1 * 16 + k2, n0 * (kp / 32) + k0;
      && 0 <= row * kp + col < |src| && 0 <= block * 512 + (k1 * 256 + n1 * 16 + k2) < |dst|
      && dst[block * 512 + (k1 * 256 + n1 * 16 + k2)] == src[row * kp + col]
  {
    WeightLayout(src, dst, n, kp, n0, n1, k0, k1, k2);
    FromRow(kp, n0 * 16 + n1, k0 * 32 + k1 * 16 + k2, n0, n1, k0, k1, k2);
    BlockScaled(n0 * (kp / 32) + k0, k1, n1, k2);
  }

  /** In plain numbers: a block of 32 rows by 8 scales becomes 256 bytes, and where the source has no such scale 2^0 stands. */
  lemma ScaleBytes(src: seq<byte>, dst: seq<byte>, rows: nat, cols: nat, groups: nat, n3: nat,
                   d0: nat, d1: nat, d2: nat, d3: nat, d4: nat, d5: nat)
    requires |dst| == groups * 32 * (n3 * 8) && forall d: nat :: d < |dst| ==> ScaleAt(src, dst, rows, cols, n3, d)
    requires d0 < groups && d1 < 2 && d2 < 16 && d3 < n3 && d4 < 2 && d5 < 4
    ensures var row, col, d := d0 * 32 + d1 * 16 + d2, d3 * 8 + d4 * 4 + d5, (d0 * n3 + d3) * 256 + (d5 * 64 + d2 * 4 + d4 * 2 + d1);
      && 0 <= d < |dst|
      && if row < rows && col < cols then 0 <= row * cols + col < |src| && dst[d] == src[row * cols + col] else dst[d] == 0x7F
  {
    ScalePlace(groups, n3, d0, d1, d2, d3, d4, d5);
    ScalesScaled(d0 * n3 + d3, d1, d2, d4, d5);
    ScaleRow(n3, d0 * 32 + d1 * 16 + d2, d3 * 8 + d4 * 4 + d5, d0, d1, d2, d3, d4, d5);
    ScaleElement(src, dst, rows, cols, n3, ScaleTo(n3, d0, d1, d2, d3, d4, d5), d0 * 32 + d1 * 16 + d2, d3 * 8 + d4 * 4 + d5);
  }

  lemma ScaleElement(src: seq<byte>, dst: seq<byte>, rows: nat, cols: nat, n3: nat, d: nat, row: nat, col: nat)
    requires n3 > 0 && ScaleAt(src, dst, rows, cols, n3, d) && Source(Scale(), n3, d) == row * (n3 * 8) + col && col < n3 * 8
    ensures if row < rows && col < cols then 0 <= row * cols + col < |src| && dst[d] == src[row * cols + col] else dst[d] == 0x7F
  {
    DivModUnique(Source(Scale(), n3, d), n3 * 8, row, col);
  }

  /** The place of a scale, and that the inverse map leads back to it. */
  lemma ScalePlace(groups: nat, n3: nat, d0: nat, d1: nat, d2: nat, d3: nat, d4: nat, d5: nat)
    requires d0 < groups && d1 < 2 && d2 < 16 && d3 < n3 && d4 < 2 && d5 < 4
    ensures var d := ScaleTo(n3, d0, d1, d2, d3, d4, d5);
      && 0 <= d < groups * 32 * (n3 * 8) && Source(Scale(), n3, d) == ScaleFrom(n3, d0, d1, d2, d3, d4, d5)
  {
    var mid, low := d1 * 16 + d2, d4 * 4 + d5;
    ScaleValid();
    ScaleSize(groups, n3);
    ScaleIndices(n3, d0, d1, d2, d3, d4, d5);
    SourceOfPlaced(Scale(), n3, groups, d0, mid, d3, low);
  }

  lemma SourceOfPlaced(p: Plan, n: nat, groups: nat, hi: nat, mid: nat, blk: nat, low: nat)
    requires p.Valid() && hi < groups && mid < p.lines && blk < n && low < p.width
    ensures p.Block() > 0
    ensures var d := Placed(p, n, hi, blk, p.code(mid, low));
      d < Size(p, n, groups) && Source(p, n, d) == Linear(p, n, hi, mid, blk, low)
  {
    LinearBounds(p, n, groups, hi, mid, blk, low);
    DestOf(p, n, hi, mid, blk, low);
    DestThenSource(p, n, groups, Linear(p, n, hi, mid, blk, low));
  }

  lemma ScaleRow(n3: nat, row: nat, col: nat, d0: nat, d1: nat, d2: nat, d3: nat, d4: nat, d5: nat)
    requires d3 < n3 && d4 < 2 && d5 < 4 && row == d0 * 32 + d1 * 16 + d2 && col == d3 * 8 + d4 * 4 + d5
    ensures ScaleFrom(n3, d0, d1, d2, d3, d4, d5) == row * (n3 * 8) + col
    ensures ScaleFrom(n3, d0, d1, d2, d3, d4, d5) / (n3 * 8) == row && ScaleFrom(n3, d0, d1, d2, d3, d4, d5) % (n3 * 8) == col
  {
    DivModUnique(row * (n3 * 8) + col, n3 * 8, row, col);
  }

  /** Element (hi, mid, blk, low) at its destination. */
  lemma MovedElement(p: Plan, n: nat, groups: nat, dst: seq<byte>, src: seq<byte>, hi: nat, mid: nat, blk: nat, low: nat)
    requires p.Valid() && |src| == |dst| == Size(p, n, groups) && Filled(p, n, dst, src, |src|)
    requires hi < groups && mid < p.lines && blk < n && low < p.width
    ensures p.Block() > 0
    ensures var s, d := Linear(p, n, hi, mid, blk, low), Placed(p, n, hi, blk, p.code(mid, low));
      s < |src| && d < |dst| && dst[d] == src[s] && Source(p, n, d) == s
  {
    LinearBounds(p, n, groups, hi, mid, blk, low);
    DestOf(p, n, hi, mid, blk, low);
    DestThenSource(p, n, groups, Linear(p, n, hi, mid, blk, low));
  }

  lemma PaddedAt(padded: seq<byte>, src: seq<byte>, rows: nat, cols: nat, sm: nat, sn: nat, s: nat)
    requires sn > 0 && Padded(padded, src, rows, cols, sm, sn) && s < |padded|
    ensures var r, c := s / sn, s % sn;
      && 0 <= r < sm && c < sn && 0 <= r * cols
      && (if r < rows && c < cols then r * cols + c < |src| && padded[s] == src[r * cols + c] else padded[s] == PAD)
  {
    DivMod(s, sn);
    DivLt(s, sn, sm);
    MulLe(0, s / sn, cols);
    assert Holds(padded, src, rows, cols, sn, s / sn, s % sn);
  }

  lemma ScaleSource(padded: seq<byte>, dst: seq<byte>, groups: nat, n3: nat, d: nat)
    requires n3 > 0 && |dst| == |padded| == groups * 32 * (n3 * 8)
    requires Filled(Scale(), n3, dst, padded, |padded|) && d < |dst|
    ensures Source(Scale(), n3, d) < |padded| && dst[d] == padded[Source(Scale(), n3, d)]
  {
    ScaleValid();
    ScaleSize(groups, n3);
    MovedAll(Scale(), n3, groups, dst, padded);
  }

  lemma ScaleLayout(src: seq<byte>, padded: seq<byte>, dst: seq<byte>, rows: nat, cols: nat, groups: nat, n3: nat, d: nat)
    requires n3 > 0 && Padded(padded, src, rows, cols, groups * 32, n3 * 8)
    requires |dst| == |padded| && Filled(Scale(), n3, dst, padded, |padded|) && d < |dst|
    ensures ScaleAt(src, dst, rows, cols, n3, d)
  {
    ScaleSource(padded, dst, groups, n3, d);
    PaddedAt(padded, src, rows, cols, groups * 32, n3 * 8, Source(Scale(), n3, d));
  }

  /** `round_up`: the least multiple of b that is not below a. */
  function RoundUp(a: nat, b: nat): nat
    requires b > 0
  {
    MulLe(0, CeilDiv(a, b), b);
    CeilDiv(a, b) * b
  }

  lemma RoundUpLeast(a: nat, b: nat, x: nat)
    requires b > 0
    ensures RoundUp(a, b) % b == 0 && a <= RoundUp(a, b) < a + b
    ensures x % b == 0 && a <= x ==> RoundUp(a, b) <= x
  {
    var q := CeilDiv(a, b);
    DivMod(a + b - 1, b);
    DivModUnique(q * b, b, q, 0);
    if x % b == 0 && a <= x {
      DivMod(x, b);
      if x / b < q {
        MulLe(x / b + 1, q, b);
        Distribute(x / b, 1, b);
      }
      MulLe(q, x / b, b);
    }
  }
}
