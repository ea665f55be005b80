/** What each lane reads from LDS for an mfma (`mfma_mapping_for_sld` with the `sld` iterators), compared with
    what an mfma takes from each lane and with what `gld_iterator_s_r_direct_to_reg` loads into it. */
module LdsFragments {
  import opened Arith
  import opened LdsLayout

  /** An mfma over m rows and k values of K: each of the 64 lanes supplies `pack` values of k of one row. */
  datatype Mfma = Mfma(m: nat, k: nat, pack: nat)
  {
    predicate Valid() { m > 0 && pack > 0 && 64 % m == 0 && k == 64 / m * pack && k > 0 }
  }

  /** The waves along one side: `across` waves of `perWave` = m rows each, as in BLOCK_M_WAVES and M_PER_WAVE. */
  datatype Side = Side(tile: Tile, inst: Mfma, across: nat)
  {
    /** Rows covered by one fragment row of all waves. */
    function Rows(): nat { Product(across, inst.m) }

    predicate Valid() {
      && tile.Valid() && inst.Valid() && tile.pack == inst.pack && across > 0
      && Rows() > 0 && tile.s % Rows() == 0 && tile.r % inst.k == 0
    }

    /** WAVE_S_REPEAT and R_REPEAT. */
    function SRepeat(): nat requires Rows() > 0 { tile.s / Rows() }
    function RRepeat(): nat requires inst.k > 0 { tile.r / inst.k }
  }

  /** `mfma_mapping_for_sld` for wave row `w`, plus `i_offset` of fragment (iS, iR). */
  function SldOffset(d: Side, w: nat, lane: nat, iS: nat, iR: nat): nat
    requires d.inst.m > 0 && d.inst.pack > 0
  {
    DivMod(lane, d.inst.m);
    DivMod(d.inst.k, d.inst.pack);
    var p, plane := d.inst.pack, d.inst.pack + Product(d.tile.s, d.inst.pack);
    var srcRow, srcK := lane % d.inst.m + Product(w, d.inst.m), lane / d.inst.m;
    Product(srcRow, p) + Product(srcK, plane)
    + (Product(Product(Product(iS, d.across), d.inst.m), p) + Product(Product(iR, d.inst.k / p), plane))
  }

  /** The row and k that value y of a lane stands for in fragment (iS, iR) of an mfma tile. */
  function FeedRow(d: Side, w: nat, lane: nat, iS: nat): nat
    requires d.inst.m > 0
  {
    Product(iS, d.Rows()) + (Product(w, d.inst.m) + lane % d.inst.m)
  }

  function FeedK(d: Side, lane: nat, iR: nat, y: nat): nat
    requires d.inst.m > 0
  {
    Product(iR, d.inst.k) + (Product(lane / d.inst.m, d.inst.pack) + y)
  }

  /** The vector a lane reads is the one its mfma operand stands for. */
  lemma FragmentAddress(d: Side, w: nat, lane: nat, iS: nat, iR: nat, y: nat)
    requires d.Valid() && lane < 64 && y < d.inst.pack
    ensures SldOffset(d, w, lane, iS, iR) + y == Cell(d.tile, FeedRow(d, w, lane, iS), FeedK(d, lane, iR, y))
  {
    var m, p, g := d.inst.m, d.inst.pack, 64 / d.inst.m;
    var srcK, plane := lane / m, d.tile.Plane();
    DivExact(g, p);
    Associate(iR, g, p);
    Distribute(iR * g, srcK, p);
    MulLe(0, iR, g);
    DivModUnique(FeedK(d, lane, iR, y), p, iR * g + srcK, y);
    Distribute(iR * g, srcK, plane);
    Associate(iS, d.across, m);
    Distribute(iS * d.Rows(), lane % m + w * m, p);
  }

  /** Fragments of the tile lie in the tile. */
  lemma FeedInside(d: Side, w: nat, lane: nat, iS: nat, iR: nat, y: nat)
    requires d.Valid() && lane < 64 && y < d.inst.pack && w < d.across && iS < d.SRepeat() && iR < d.RRepeat()
    ensures FeedRow(d, w, lane, iS) < d.tile.s && FeedK(d, lane, iR, y) < d.tile.r
  {
    LaneParts(d.inst, lane);
    QuotientPositive(d.tile.s, d.Rows());
    QuotientPositive(d.tile.r, d.inst.k);
    Nested(w, lane % d.inst.m, d.across, d.inst.m, iS, d.SRepeat(), d.Rows());
    Nested(lane / d.inst.m, y, 64 / d.inst.m, d.inst.pack, iR, d.RRepeat(), d.inst.k);
  }

  lemma LaneParts(inst: Mfma, lane: nat)
    requires inst.Valid() && lane < 64
    ensures 0 <= lane / inst.m < 64 / inst.m && lane % inst.m < inst.m
  {
    DivMod(64, inst.m);
    DivLt(lane, inst.m, 64 / inst.m);
  }

  /** An index in a matrix of rows by cols, repeated `outer` times. */
  lemma Nested(row: nat, col: nat, rows: nat, cols: nat, i: nat, outer: nat, size: nat)
    requires row < rows && col < cols && i < outer && size == rows * cols
    ensures 0 <= row * cols + col < size && 0 <= i * size + (row * cols + col) < outer * size
  {
    RowIndex(row, col, rows, cols);
    RowIndex(i, row * cols + col, outer, size);
  }

  /** Store and load agree: with a tile in LDS, every lane reads exactly the elements its mfma operand stands for. */
  lemma FragmentsCorrect<T>(d: Side, lds: seq<T>, base: nat, tile: (nat, nat) -> T,
                                  w: nat, lane: nat, iS: nat, iR: nat, y: nat)
    requires d.Valid() && lane < 64 && y < d.inst.pack && w < d.across && iS < d.SRepeat() && iR < d.RRepeat()
    requires base + d.tile.Size() <= |lds|
    requires forall row: nat, k: nat :: row < d.tile.s && k < d.tile.r ==> At(d.tile, lds, base, row, k) == tile(row, k)
    ensures SldOffset(d, w, lane, iS, iR) + y < d.tile.Size()
    ensures lds[base + SldOffset(d, w, lane, iS, iR) + y] == tile(FeedRow(d, w, lane, iS), FeedK(d, lane, iR, y))
  {
    FragmentAddress(d, w, lane, iS, iR, 0);
    FragmentAddress(d, w, lane, iS, iR, y);
    FeedInside(d, w, lane, iS, iR, y);
    CellInside(d.tile, FeedRow(d, w, lane, iS), FeedK(d, lane, iR, y));
    assert At(d.tile, lds, base, FeedRow(d, w, lane, iS), FeedK(d, lane, iR, y)) == tile(FeedRow(d, w, lane, iS), FeedK(d, lane, iR, y));
  }

  /** The operand place that element (row, k) goes to. */
  datatype Place = Place(w: nat, lane: nat, iS: nat, iR: nat, y: nat)

  predicate InRange(d: Side, p: Place)
    requires d.Valid()
  {
    p.w < d.across && p.lane < 64 && p.iS < d.SRepeat() && p.iR < d.RRepeat() && p.y < d.inst.pack
  }

  function PlaceOf(d: Side, row: nat, k: nat): Place
    requires d.Valid()
  {
    var inRow, inK := row % d.Rows(), k % d.inst.k;
    DivMod(row, d.Rows());
    DivMod(inRow, d.inst.m);
    DivMod(k, d.inst.k);
    DivMod(inK, d.inst.pack);
    Place(inRow / d.inst.m, Product(inK / d.inst.pack, d.inst.m) + inRow % d.inst.m, row / d.Rows(), k / d.inst.k, inK % d.inst.pack)
  }

  /** Every element of the tile is fed by exactly one lane and fragment of the waves along this side: nothing is
      left out, */
  lemma ElementFed(d: Side, row: nat, k: nat)
    requires d.Valid() && row < d.tile.s && k < d.tile.r
    ensures var p := PlaceOf(d, row, k);
      InRange(d, p) && FeedRow(d, p.w, p.lane, p.iS) == row && FeedK(d, p.lane, p.iR, p.y) == k
  {
    var inRow, inK, g := row % d.Rows(), k % d.inst.k, 64 / d.inst.m;
    QuotientPositive(d.tile.s, d.Rows());
    QuotientPositive(d.tile.r, d.inst.k);
    DivMod(row, d.Rows());
    DivLt(row, d.Rows(), d.SRepeat());
    DivMod(inRow, d.inst.m);
    DivLt(inRow, d.inst.m, d.across);
    DivMod(k, d.inst.k);
    DivLt(k, d.inst.k, d.RRepeat());
    DivMod(inK, d.inst.pack);
    DivLt(inK, d.inst.pack, g);
    DivMod(64, d.inst.m);
    RowIndex(inK / d.inst.pack, inRow % d.inst.m, g, d.inst.m);
    DivModUnique(PlaceOf(d, row, k).lane, d.inst.m, inK / d.inst.pack, inRow % d.inst.m);
  }

  /** and nothing is fed twice. */
  lemma FedOnce(d: Side, p: Place)
    requires d.Valid() && InRange(d, p)
    ensures PlaceOf(d, FeedRow(d, p.w, p.lane, p.iS), FeedK(d, p.lane, p.iR, p.y)) == p
  {
    var m, pack, g := d.inst.m, d.inst.pack, 64 / d.inst.m;
    DivMod(64, m);
    DivMod(p.lane, m);
    DivLt(p.lane, m, g);
    RowIndex(p.w, p.lane % m, d.across, m);
    RowIndex(p.lane / m, p.y, g, pack);
    DivModUnique(FeedRow(d, p.w, p.lane, p.iS), d.Rows(), p.iS, p.w * m + p.lane % m);
    DivModUnique(p.w * m + p.lane % m, m, p.w, p.lane % m);
    DivModUnique(FeedK(d, p.lane, p.iR, p.y), d.inst.k, p.iR, p.lane / m * pack + p.y);
    DivModUnique(p.lane / m * pack + p.y, pack, p.lane / m, p.y);
  }

  // ---------------------------------------------------------------- loading straight to registers

  /** `gld_iterator_s_r_direct_to_reg`: the row and k of value y of issue i, for BLOCK_R_WAVES `rWaves`. */
  function DirectRow(d: Side, rWaves: nat, wave: nat, lane: nat, i: nat): nat
    requires d.inst.m > 0 && rWaves > 0 && d.inst.k > 0 && d.RRepeat() > 0
  {
    DivMod(wave, rWaves);
    DivMod(i, d.RRepeat());
    lane % d.inst.m + Product(wave / rWaves, d.inst.m) + Product(i / d.RRepeat(), d.Rows())
  }

  function DirectK(d: Side, lane: nat, i: nat, y: nat): nat
    requires d.inst.m > 0 && d.inst.k > 0 && d.RRepeat() > 0
  {
    Product(lane / d.inst.m, d.inst.pack) + Product(i % d.RRepeat(), d.inst.k) + y
  }

  /** Register issues_r * iS + iR of the direct iterator holds the operand of fragment (iS, iR), of the wave row
      that the iterator's own division of the wave index gives. */
  lemma DirectRegister(d: Side, rWaves: nat, wave: nat, lane: nat, i: nat, y: nat)
    requires d.inst.m > 0 && rWaves > 0 && d.inst.k > 0 && d.RRepeat() > 0
    ensures wave / rWaves >= 0 && i / d.RRepeat() >= 0
    ensures DirectRow(d, rWaves, wave, lane, i) == FeedRow(d, wave / rWaves, lane, i / d.RRepeat())
    ensures DirectK(d, lane, i, y) == FeedK(d, lane, i % d.RRepeat(), y)
  {
    DivMod(wave, rWaves);
    DivMod(i, d.RRepeat());
  }

  lemma DivTwice(x: nat, a: nat, b: nat)
    requires a > 0 && b > 0
    ensures 0 <= x / a && a * b > 0 && x / a / b == x / (a * b)
  {
    var q := x / a;
    DivMod(x, a);
    DivMod(q, b);
    Distribute(q / b * b, q % b, a);
    Associate(q / b, b, a);
    RowIndex(q % b, x % a, b, a);
    DivModUnique(x, a * b, q / b, q % b * a + x % a);
  }

  /** Dividing a positive number leaves it unchanged only when the divisor is 1. */
  lemma SmallerQuotient(n: nat, d: nat)
    requires n > 0 && d > 0
    ensures n / d == n <==> d == 1
  {
    DivMod(n, d);
    if d > 1 && n / d == n { MulLt(1, d, n); }
  }

  lemma CancelQuotient(n: nat, d: nat, u: nat)
    requires d > 0 && u > 0
    ensures d * u > 0 && n * u >= 0 && n * u / (d * u) == n / d
  {
    var q, r := n / d, n % d;
    DivMod(n, d);
    Distribute(q * d, r, u);
    Associate(q, d, u);
    MulLt(r, d, u);
    MulLe(0, r, u);
    DivModUnique(n * u, d * u, q, r * u);
  }

  /** `n_issue == issues_r * issues_s`, for a tile of s rows of r values: the static assertion of the iterator. */
  predicate IssuesMatch(inst: Mfma, s: nat, r: nat, mWaves: nat, nWaves: nat, kWaves: nat)
    requires inst.m > 0 && inst.k > 0 && inst.pack > 0 && mWaves > 0 && nWaves > 0 && kWaves > 0
    requires mWaves * nWaves * kWaves * 64 > 0 && mWaves * inst.m > 0
  {
    s * r / (mWaves * nWaves * kWaves * 64) / inst.pack == r / inst.k * (s / (mWaves * inst.m))
  }

  lemma BlockSize(inst: Mfma, mWaves: nat, nWaves: nat, kWaves: nat)
    requires inst.Valid() && mWaves > 0 && nWaves > 0 && kWaves > 0
    ensures nWaves * kWaves > 0 && mWaves * inst.m > 0 && mWaves * inst.m * inst.k > 0
    ensures mWaves * nWaves * kWaves * 64 > 0
    ensures mWaves * nWaves * kWaves * 64 * inst.pack == nWaves * kWaves * (mWaves * inst.m * inst.k)
  {
    var g := 64 / inst.m;
    DivMod(64, inst.m);
    MulLt(0, nWaves, kWaves);
    MulLt(0, mWaves, inst.m);
    MulLt(0, mWaves * inst.m, inst.k);
    Associate(mWaves, nWaves, kWaves);
    MulLt(0, mWaves, nWaves * kWaves);
    Associate(inst.m, g, inst.pack);
    Regroup(mWaves, nWaves * kWaves, inst.m * inst.k);
    Associate(mWaves, inst.m, inst.k);
    Associate(mWaves * (nWaves * kWaves), 64, inst.pack);
  }

  lemma Regroup(a: int, b: int, c: int)
    ensures a * b * c == b * (a * c)
  {
    Associate(b, a, c);
  }

  /** For a tile that fragments cover evenly, the iterator compiles if and only if all waves stand along its own side:
      the mfma mapping's wave row, wave / BLOCK_N_WAVES, is then the iterator's, wave / BLOCK_K_WAVES. */
  lemma DirectNeedsOneSide(inst: Mfma, s: nat, r: nat, mWaves: nat, nWaves: nat, kWaves: nat)
    requires inst.Valid() && mWaves > 0 && nWaves > 0 && kWaves > 0 && s > 0 && r > 0
    requires mWaves * inst.m > 0 && s % (mWaves * inst.m) == 0 && r % inst.k == 0
    ensures mWaves * nWaves * kWaves * 64 > 0
    ensures IssuesMatch(inst, s, r, mWaves, nWaves, kWaves) <==> nWaves == 1 && kWaves == 1
  {
    BlockSize(inst, mWaves, nWaves, kWaves);
    var d, band, block := nWaves * kWaves, mWaves * inst.m, mWaves * nWaves * kWaves * 64;
    QuotientPositive(s, band);
    QuotientPositive(r, inst.k);
    var iS, iR := s / band, r / inst.k;
    MulLt(0, iS, iR);
    assert s * r == (iS * iR) * (band * inst.k) by { Swap(iS, band, iR, inst.k); }
    DivTwice(s * r, block, inst.pack);
    CancelQuotient(iS * iR, d, band * inst.k);
    SmallerQuotient(iS * iR, d);
    OneTimesOne(nWaves, kWaves);
  }

  lemma Swap(a: int, b: int, c: int, d: int)
    ensures (a * b) * (c * d) == (a * c) * (b * d)
  {
    Associate(a, b, c * d);
    Associate(b, c, d);
    Associate(a, c, b * d);
    Associate(c, b, d);
  }

  lemma OneTimesOne(a: nat, b: nat)
    requires a > 0 && b > 0
    ensures a * b == 1 <==> a == 1 && b == 1
  {
    MulLe(1, a, b);
    MulLe(1, b, a);
  }
}
