/** The swizzled tile order of `tile_scheduler`: workgroups walk down columns of `m01`-row groups of tiles,
    with a shorter last group when the number of tile rows is not a multiple of `m01`. */
module TileScheduler {
  import opened Arith

  function CeilDiv(a: nat, b: nat): (r: nat)
    requires b > 0
  {
    (a + b - 1) / b
  }

  /** `m01_adapt`: the height of the group that tile row `row` belongs to. */
  function GroupHeight(m0: nat, m01: nat, row: nat): nat
    requires m01 > 0
  {
    if row < m0 - m0 % m01 then m01 else m0 % m01
  }

  datatype Tile = Tile(row: nat, col: nat)

  /** The body of `operator()` for workgroup `block`, before multiplying by the tile sizes. */
  function TileOf(m0: nat, n0: nat, m01: nat, block: nat): Tile
    requires n0 > 0 && m01 > 0 && block < m0 * n0
  {
    var idxN0, idxM0 := block % n0, block / n0;
    DivLt(block, n0, m0);
    AdaptPositive(m0, m01, idxM0);
    var adapt := GroupHeight(m0, m01, idxM0);
    var idxM00, idxM01 := idxM0 / m01, idxM0 % m01;
    var local := idxN0 + idxM01 * n0;
    MulLe(0, idxM01, n0);
    MulLe(0, idxM00, m01);
    DivMod(local, adapt);
    Tile(local % adapt + idxM00 * m01, local / adapt)
  }

  /** The divisor `m01_adapt` is never zero. */
  lemma AdaptPositive(m0: nat, m01: nat, row: nat)
    requires m01 > 0 && row < m0
    ensures GroupHeight(m0, m01, row) > 0
  {
  }

  /** The workgroup that computes a tile. */
  function BlockOf(m0: nat, n0: nat, m01: nat, t: Tile): nat
    requires n0 > 0 && m01 > 0 && t.row < m0 && t.col < n0
  {
    var group := t.row / m01;
    MulLe(0, group, m01);
    MulLe(0, group * m01, n0);
    MulLe(0, t.col, GroupHeight(m0, m01, t.row));
    group * m01 * n0 + t.col * GroupHeight(m0, m01, t.row) + t.row % m01
  }

  /** Rows of group `g` start at g * m01 and there are GroupHeight of them. */
  lemma GroupRows(m0: nat, m01: nat, g: nat, r: nat)
    requires m01 > 0 && g * m01 < m0 && r < m01
    ensures var height := if (g + 1) * m01 <= m0 then m01 else m0 % m01;
      && (g * m01 + r < m0 <==> r < height)
      && (g * m01 + r < m0 ==> GroupHeight(m0, m01, g * m01 + r) == height)
  {
    var full, rest := m0 / m01, m0 % m01;
    DivMod(m0, m01);
    Distribute(g, 1, m01);
    if g < full {
      MulLe(g + 1, full, m01);
    } else {
      if g > full { MulLe(full + 1, g, m01); Distribute(full, 1, m01); }
      assert g == full;
    }
  }

  /** A workgroup's position inside its group. */
  lemma BlockSplit(m0: nat, n0: nat, m01: nat, block: nat)
    requires n0 > 0 && m01 > 0 && block < m0 * n0
    ensures var row := block / n0; var g := row / m01;
      var local := block % n0 + row % m01 * n0;
      && row < m0 && g * m01 <= row
      && block == g * m01 * n0 + local
      && local < GroupHeight(m0, m01, row) * n0
  {
    var row := block / n0;
    DivLt(block, n0, m0);
    var g, r := row / m01, row % m01;
    DivMod(row, m01);
    DivMod(block, n0);
    Distribute(g * m01, r, n0);
    GroupRows(m0, m01, g, r);
    RowIndex(r, block % n0, GroupHeight(m0, m01, row), n0);
  }

  /** Every workgroup gets a tile of the grid, and that tile names the workgroup back. */
  lemma BlockToTile(m0: nat, n0: nat, m01: nat, block: nat)
    requires n0 > 0 && m01 > 0 && block < m0 * n0
    ensures var t := TileOf(m0, n0, m01, block);
      t.row < m0 && t.col < n0 && BlockOf(m0, n0, m01, t) == block
  {
    BlockSplit(m0, n0, m01, block);
    var row := block / n0;
    var g := row / m01;
    var height := GroupHeight(m0, m01, row);
    AdaptPositive(m0, m01, row);
    var local := block % n0 + row % m01 * n0;
    var r, col := local % height, local / height;
    DivMod(local, height);
    assert local < n0 * height;
    DivLt(local, height, n0);
    DivMod(row, m01);
    GroupRows(m0, m01, g, row % m01);
    assert height <= m01;
    GroupRows(m0, m01, g, r);
    DivModUnique(g * m01 + r, m01, g, r);
  }

  /** Where the index of a tile's workgroup lands in (block / n0, block % n0), for tile row g * m01 + r. */
  lemma BlockParts(m0: nat, n0: nat, m01: nat, g: nat, r: nat, height: nat, col: nat)
    requires n0 > 0 && m01 > 0 && r < height && col < n0 && height <= m01 && g * m01 + height <= m0
    ensures var local := col * height + r; var block := g * m01 * n0 + local;
      && 0 <= block < m0 * n0 && 0 <= local / n0 < height
      && block / n0 == g * m01 + local / n0 && block % n0 == local % n0
  {
    RowIndex(col, r, n0, height);
    var local := col * height + r;
    DivMod(local, n0);
    assert local < height * n0;
    DivLt(local, n0, height);
    MulLe(0, g, m01);
    Distribute(g * m01, local / n0, n0);
    RowIndex(g * m01 + local / n0, local % n0, m0, n0);
    DivModUnique(g * m01 * n0 + local, n0, g * m01 + local / n0, local % n0);
  }

  /** The tile of a workgroup, with the parts of its index named. */
  lemma TileFrom(m0: nat, n0: nat, m01: nat, block: nat, row: nat, g: nat, s: nat, height: nat, local: nat)
    requires n0 > 0 && m01 > 0 && block < m0 * n0 && height > 0 && block / n0 == row
    requires row / m01 == g && row % m01 == s && GroupHeight(m0, m01, row) == height && local == block % n0 + s * n0
    ensures var t := TileOf(m0, n0, m01, block); t.row == local % height + g * m01 && t.col == local / height
  {
  }

  /** Every tile of the grid is computed by exactly the workgroup `BlockOf` names. */
  lemma TileToBlock(m0: nat, n0: nat, m01: nat, t: Tile)
    requires n0 > 0 && m01 > 0 && t.row < m0 && t.col < n0
    ensures var block := BlockOf(m0, n0, m01, t);
      block < m0 * n0 && TileOf(m0, n0, m01, block) == t
  {
    var g, r := t.row / m01, t.row % m01;
    DivMod(t.row, m01);
    var height := GroupHeight(m0, m01, t.row);
    AdaptPositive(m0, m01, t.row);
    GroupRows(m0, m01, g, r);
    DivMod(m0, m01);
    GroupRows(m0, m01, g, height - 1);
    BlockParts(m0, n0, m01, g, r, height, t.col);
    var local := t.col * height + r;
    var s := local / n0;
    GroupRows(m0, m01, g, s);
    DivMod(local, n0);
    DivModUnique(g * m01 + s, m01, g, s);
    DivModUnique(local, height, t.col, r);
    TileFrom(m0, n0, m01, BlockOf(m0, n0, m01, t), g * m01 + s, g, s, height, local);
  }

  /** The workgroup of row r of group g, with the parts of the row named. */
  lemma BlockAt(m0: nat, n0: nat, m01: nat, g: nat, r: nat, t: Tile)
    requires n0 > 0 && m01 > 0 && r < m01 && t.row == g * m01 + r < m0 && t.col < n0
    ensures BlockOf(m0, n0, m01, t) == g * m01 * n0 + t.col * GroupHeight(m0, m01, t.row) + r
    ensures r < GroupHeight(m0, m01, t.row) <= m01
    ensures r + 1 < GroupHeight(m0, m01, t.row) <==> r + 1 < m01 && t.row + 1 < m0
    ensures t.row + 1 < m0 && r + 1 == m01 ==> GroupHeight(m0, m01, t.row) == m01
  {
    DivModUnique(t.row, m01, g, r);
    MulLe(0, g, m01);
    DivMod(m0, m01);
    GroupRows(m0, m01, g, r);
    if r + 1 < m01 { GroupRows(m0, m01, g, r + 1); }
  }

  lemma NextColumn(col: nat, height: nat, r: nat)
    requires height > 0 && r == height - 1
    ensures (col + 1) * height == col * height + r + 1
  {
    Distribute(col, 1, height);
  }

  /** The order of the grid: workgroup 0 takes the first tile, and after tile (row, col) comes the one below in the same
      group of m01 rows, at its end the top of the group's next column, and after the last column the next group. */
  lemma WalksDown(m0: nat, n0: nat, m01: nat, block: nat)
    requires n0 > 0 && m01 > 0 && block + 1 < m0 * n0
    ensures TileOf(m0, n0, m01, 0) == Tile(0, 0)
    ensures var t, next := TileOf(m0, n0, m01, block), TileOf(m0, n0, m01, block + 1);
      if (t.row + 1) % m01 != 0 && t.row + 1 < m0 then next == Tile(t.row + 1, t.col)
      else if t.col + 1 < n0 then t.row >= t.row % m01 && next == Tile(t.row - t.row % m01, t.col + 1)
      else next == Tile(t.row + 1, 0)
  {
    var t := TileOf(m0, n0, m01, block);
    BlockToTile(m0, n0, m01, block);
    FirstTile(m0, n0, m01);
    AfterTile(m0, n0, m01, t, t.row / m01, t.row % m01);
  }

  lemma FirstTile(m0: nat, n0: nat, m01: nat)
    requires n0 > 0 && m01 > 0 && m0 > 0
    ensures 0 < m0 * n0 && TileOf(m0, n0, m01, 0) == Tile(0, 0)
  {
    MulLt(0, m0, n0);
    BlockAt(m0, n0, m01, 0, 0, Tile(0, 0));
    TileToBlock(m0, n0, m01, Tile(0, 0));
  }

  lemma AfterTile(m0: nat, n0: nat, m01: nat, t: Tile, g: nat, r: nat)
    requires n0 > 0 && m01 > 0 && t.row < m0 && t.col < n0 && g == t.row / m01 && 0 <= r == t.row % m01
    requires BlockOf(m0, n0, m01, t) + 1 < m0 * n0
    ensures var next := TileOf(m0, n0, m01, BlockOf(m0, n0, m01, t) + 1);
      if (t.row + 1) % m01 != 0 && t.row + 1 < m0 then next == Tile(t.row + 1, t.col)
      else if t.col + 1 < n0 then t.row >= r && next == Tile(t.row - r, t.col + 1)
      else next == Tile(t.row + 1, 0)
  {
    DivMod(t.row, m01);
    BlockAt(m0, n0, m01, g, r, t);
    var height := GroupHeight(m0, m01, t.row);
    if r + 1 < m01 {
      DivModUnique(t.row + 1, m01, g, r + 1);
    } else {
      Distribute(g, 1, m01);
      DivModUnique(t.row + 1, m01, g + 1, 0);
    }
    if r + 1 < height {
      BelowInGroup(m0, n0, m01, g, r, t);
    } else if t.col + 1 < n0 {
      NextColumn(t.col, height, r);
      TopOfColumn(m0, n0, m01, g, r, t);
    } else {
      NextColumn(t.col, height, r);
      NextGroup(m0, n0, m01, g, r, t);
    }
  }

  lemma BelowInGroup(m0: nat, n0: nat, m01: nat, g: nat, r: nat, t: Tile)
    requires n0 > 0 && m01 > 0 && t.row == g * m01 + r < m0 && t.col < n0 && r + 1 < m01 && t.row + 1 < m0
    ensures BlockOf(m0, n0, m01, t) + 1 < m0 * n0
    ensures TileOf(m0, n0, m01, BlockOf(m0, n0, m01, t) + 1) == Tile(t.row + 1, t.col)
  {
    BlockAt(m0, n0, m01, g, r, t);
    BlockAt(m0, n0, m01, g, r + 1, Tile(t.row + 1, t.col));
    GroupRows(m0, m01, g, r);
    GroupRows(m0, m01, g, r + 1);
    TileToBlock(m0, n0, m01, Tile(t.row + 1, t.col));
  }

  lemma TopOfColumn(m0: nat, n0: nat, m01: nat, g: nat, r: nat, t: Tile)
    requires n0 > 0 && m01 > 0 && r < m01 && t.row == g * m01 + r < m0 && t.col + 1 < n0 && r + 1 == GroupHeight(m0, m01, t.row)
    requires (t.col + 1) * GroupHeight(m0, m01, t.row) == t.col * GroupHeight(m0, m01, t.row) + r + 1
    ensures BlockOf(m0, n0, m01, t) + 1 < m0 * n0
    ensures TileOf(m0, n0, m01, BlockOf(m0, n0, m01, t) + 1) == Tile(t.row - r, t.col + 1)
  {
    var next := Tile(t.row - r, t.col + 1);
    SameHeight(m0, m01, g, r, 0);
    BlockAt(m0, n0, m01, g, r, t);
    BlockAt(m0, n0, m01, g, 0, next);
    SameProduct(t.col + 1, GroupHeight(m0, m01, t.row), GroupHeight(m0, m01, next.row));
    TileToBlock(m0, n0, m01, next);
  }

  lemma SameProduct(a: nat, b: nat, c: nat)
    requires b == c
    ensures a * b == a * c
  {
  }

  /** Rows of one group have the same height. */
  lemma SameHeight(m0: nat, m01: nat, g: nat, r: nat, s: nat)
    requires m01 > 0 && r < m01 && s < m01 && 0 <= g * m01 && g * m01 + r < m0 && g * m01 + s < m0
    ensures GroupHeight(m0, m01, g * m01 + r) == GroupHeight(m0, m01, g * m01 + s)
  {
    GroupRows(m0, m01, g, r);
    GroupRows(m0, m01, g, s);
  }

  lemma FewerRows(x: nat, m0: nat, n0: nat)
    requires x * n0 < m0 * n0
    ensures x < m0
  {
    if m0 <= x { MulLe(m0, x, n0); }
  }

  lemma NextGroup(m0: nat, n0: nat, m01: nat, g: nat, r: nat, t: Tile)
    requires n0 > 0 && m01 > 0 && r < m01 && t.row == g * m01 + r < m0 && t.col + 1 == n0 && r + 1 == GroupHeight(m0, m01, t.row)
    requires n0 * GroupHeight(m0, m01, t.row) == t.col * GroupHeight(m0, m01, t.row) + r + 1
    requires BlockOf(m0, n0, m01, t) + 1 < m0 * n0
    ensures TileOf(m0, n0, m01, BlockOf(m0, n0, m01, t) + 1) == Tile(t.row + 1, 0)
  {
    var height := GroupHeight(m0, m01, t.row);
    BlockAt(m0, n0, m01, g, r, t);
    Distribute(g * m01, height, n0);
    assert BlockOf(m0, n0, m01, t) + 1 == (g * m01 + height) * n0;
    FewerRows(g * m01 + height, m0, n0);
    var next := Tile(t.row + 1, 0);
    Distribute(g, 1, m01);
    BlockAt(m0, n0, m01, g + 1, 0, next);
    TileToBlock(m0, n0, m01, next);
  }

  /** Workgroup `block` of the launched grid computes output element (row, col). */
  predicate Computes(mPerBlock: nat, nPerBlock: nat, m: nat, n: nat, m01: nat, block: nat, row: nat, col: nat)
    requires mPerBlock > 0 && nPerBlock > 0 && m01 > 0 && n > 0
    requires block < CeilDiv(m, mPerBlock) * CeilDiv(n, nPerBlock)
  {
    CeilPositive(n, nPerBlock);
    var t := TileOf(CeilDiv(m, mPerBlock), CeilDiv(n, nPerBlock), m01, block);
    && t.row * mPerBlock <= row < t.row * mPerBlock + mPerBlock
    && t.col * nPerBlock <= col < t.col * nPerBlock + nPerBlock
  }

  lemma CeilCovers(a: nat, b: nat)
    requires b > 0
    ensures a <= b * CeilDiv(a, b)
  {
    DivMod(a + b - 1, b);
  }

  lemma CeilPositive(a: nat, b: nat)
    requires a > 0 && b > 0
    ensures CeilDiv(a, b) > 0
  {
    DivMod(a + b - 1, b);
  }

  lemma InsideTile(a: nat, b: nat, x: nat)
    requires b > 0 && x < a
    ensures x / b < CeilDiv(a, b)
    ensures forall q: nat :: q * b <= x < q * b + b <==> q == x / b
  {
    DivMod(x, b);
    DivMod(a + b - 1, b);
    if CeilDiv(a, b) <= x / b {
      MulLe(CeilDiv(a, b), x / b, b);
    }
    forall q: nat | q * b <= x < q * b + b ensures q == x / b {
      DivModUnique(x, b, q, x - q * b);
    }
  }

  /** Each output element is computed by exactly one workgroup of the grid `grid_dims` launches. */
  lemma EveryElementOnce(mPerBlock: nat, nPerBlock: nat, m: nat, n: nat, m01: nat, row: nat, col: nat) returns (block: nat)
    requires mPerBlock > 0 && nPerBlock > 0 && m01 > 0 && row < m && col < n
    ensures block < CeilDiv(m, mPerBlock) * CeilDiv(n, nPerBlock)
    ensures Computes(mPerBlock, nPerBlock, m, n, m01, block, row, col)
    ensures forall b: nat :: (b < CeilDiv(m, mPerBlock) * CeilDiv(n, nPerBlock)
      && Computes(mPerBlock, nPerBlock, m, n, m01, b, row, col)) ==> b == block
  {
    var m0, n0 := CeilDiv(m, mPerBlock), CeilDiv(n, nPerBlock);
    InsideTile(m, mPerBlock, row);
    InsideTile(n, nPerBlock, col);
    CeilPositive(n, nPerBlock);
    var t := Tile(row / mPerBlock, col / nPerBlock);
    block := BlockOf(m0, n0, m01, t);
    TileToBlock(m0, n0, m01, t);
    forall b: nat | b < m0 * n0 && Computes(mPerBlock, nPerBlock, m, n, m01, b, row, col) ensures b == block {
      assert TileOf(m0, n0, m01, b) == t;
      BlockToTile(m0, n0, m01, b);
    }
  }
}
