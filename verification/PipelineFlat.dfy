/** `gemm_pipeline_flat` with its `gemm_prio_fma` body and masked loads on both sides: A and B both go through
    registers into LDS tiles.  K need not be a multiple of the tile; `gld_clear` zeroes one side's registers
    after each store, while the other side's masked registers keep what an earlier tile left in them.

    The waves advance together from barrier to barrier.  Each has its own queue of global loads, which
    retire in issue order at arbitrary times. */
module PipelineFlat {
  import opened Arith
  import opened LoadOrder

  /** How a side's tile is spread over registers.  Each cell is one register vector of one thread: it belongs
      to a wave, is filled by one load of it, and holds `alignment` values of row `row` from `col` on.
      `sDim` rows and `rDim` columns of the matrix remain from the block's origin. */
  datatype Layout = Layout(cells: nat, issues: nat, alignment: nat, wave: nat -> nat, issue: nat -> nat,
                           row: nat -> nat, col: nat -> nat, sDim: nat, rDim: nat)
  {
    predicate Enabled(cell: nat, base: nat) { row(cell) < sDim && col(cell) + base < rDim }

    ghost predicate Fits(waves: nat, tile: nat) {
      && alignment > 0
      && (forall cell :: 0 <= cell < cells ==> wave(cell) < waves && issue(cell) < issues)
      && forall cell :: 0 <= cell < cells ==> Aligned(tile, cell)
    }

    /** Vectors start at multiples of their length, in a tile and in the matrix, and K ends at one. */
    predicate Aligned(tile: nat, cell: nat)
      requires alignment > 0
    {
      col(cell) % alignment == 0 && tile % alignment == 0 && rDim % alignment == 0
    }
  }

  /** `gld_iterator_s_r`, over all threads of the workgroup. */
  class GldIterator {
    const layout: Layout
    var baseOffset: nat
    var flags: seq<bool>
    var buf: seq<Slice>

    ghost predicate Valid() reads this {
      && |flags| == |buf| == layout.cells
      && forall cell :: 0 <= cell < layout.cells ==> (flags[cell] <==> layout.Enabled(cell, baseOffset))
    }

    constructor (layout: Layout)
      ensures Valid() && this.layout == layout && baseOffset == 0
      ensures forall cell :: 0 <= cell < layout.cells ==>
        (flags[cell] <==> layout.row(cell) < layout.sDim && layout.col(cell) < layout.rDim)
    {
      this.layout := layout;
      baseOffset := 0;
      flags := seq(layout.cells, cell requires 0 <= cell => layout.row(cell) < layout.sDim && layout.col(cell) < layout.rDim);
      buf := seq(layout.cells, _ => Blank);
    }

    /** Flags are only ever narrowed, yet stay exact because the window only moves forward. */
    method MoveSliceWindow(step: nat)
      requires Valid()
      modifies this`baseOffset, this`flags
      ensures Valid() && baseOffset == old(baseOffset) + step
      ensures forall cell :: 0 <= cell < layout.cells ==>
        (flags[cell] <==> layout.row(cell) < layout.sDim && layout.col(cell) + baseOffset < layout.rDim)
    {
      baseOffset := baseOffset + step;
      var was, base, l := flags, baseOffset, layout;
      flags := seq(|was|, cell requires 0 <= cell < |was| => was[cell] && l.col(cell) + base < l.rDim);
    }

    method ClearBuf()
      requires Valid()
      modifies this`buf
      ensures Valid() && forall cell :: 0 <= cell < layout.cells ==> buf[cell] == Blank
    {
      buf := seq(layout.cells, _ => Blank);
    }
  }

  /** A load in flight: its side and register, and the window and mask at its issue. */
  datatype Fetch = Fetch(isA: bool, i: nat, base: nat, mask: seq<bool>)

  /** A masked load leaves the register alone where its flag is off. */
  function Filled(l: Layout, buf: seq<Slice>, w: nat, load: Fetch): seq<Slice>
    requires |buf| == |load.mask| == l.cells
  {
    seq(l.cells, cell requires 0 <= cell < l.cells =>
      if l.wave(cell) == w && l.issue(cell) == load.i && load.mask[cell] then From(load.base) else buf[cell])
  }

  /** `aFirst` is `gld_x_first`; `clearB` is M_PER_BLOCK > N_PER_BLOCK.  Output element e lies in accumulator
      fragment `frag(e)`, row `rowOf(e)` and column `colOf(e)`; `cellA(row, r)` holds element (row, r) of the tile. */
  datatype Config = Config(waves: nat, aFirst: bool, clearB: bool, a: Layout, b: Layout,
                           tile: nat, kInst: nat, kRepeat: nat, plane: nat,
                           elems: nat, frag: nat -> nat, rowOf: nat -> nat, colOf: nat -> nat,
                           cellA: (nat, nat) -> nat, cellB: (nat, nat) -> nat,
                           memA: (nat, nat) -> int, memB: (nat, nat) -> int)
  {
    ghost predicate Valid() {
      && waves > 0 && plane > 0 && tile == kRepeat * kInst && tile > 0
      && a.rDim == b.rDim && a.Fits(waves, tile) && b.Fits(waves, tile)
      && (forall e :: 0 <= e < elems ==> frag(e) < plane)
      && (forall e, r :: 0 <= e < elems && 0 <= r < tile ==> Stores(a, cellA(rowOf(e), r), rowOf(e), r))
      && (forall e, r :: 0 <= e < elems && 0 <= r < tile ==> Stores(b, cellB(colOf(e), r), colOf(e), r))
    }

    function K(): nat { a.rDim }

    /** Loads per tile. */
    function T(): nat { a.issues + b.issues }

    /** The place of a load of either side in the order of its tile. */
    function Pos(isA: bool, i: nat): nat { if isA == aFirst then i else (if aFirst then a.issues else b.issues) + i }

    function Side(isA: bool): Layout { if isA then a else b }

    /** Whether GLD_BUF_CLEAR zeroes this side. */
    predicate Cleared(isA: bool) { isA != clearB }
  }

  predicate Stores(l: Layout, cell: nat, row: nat, r: nat) {
    cell < l.cells && l.row(cell) == row && l.col(cell) <= r < l.col(cell) + l.alignment
  }

  // ---------------------------------------------------------------- what registers and LDS hold

  /** Two loads at the same place of a tile are the same. */
  lemma SamePos(c: Config, isA: bool, i: nat, isA': bool, i': nat)
    requires i < c.Side(isA).issues && i' < c.Side(isA').issues && c.Pos(isA, i) == c.Pos(isA', i')
    ensures isA == isA' && i == i'
  {
  }

  /** Load `load` of tile t. */
  predicate IsLoad(c: Config, load: Fetch, base: nat, n: nat) {
    var l := c.Side(load.isA);
    && load.base == base && load.i < l.issues && c.Pos(load.isA, load.i) == n && |load.mask| == l.cells
    && forall cell :: 0 <= cell < l.cells ==> (load.mask[cell] <==> l.Enabled(cell, base))
  }

  /** A load's vector of a cell lies wholly inside the matrix, whose `sDim` rows of `rDim` columns remain. */
  predicate Inside(l: Layout, base: nat, cell: nat) {
    l.row(cell) < l.sDim && l.col(cell) + base + l.alignment <= l.rDim
  }

  /** A load reads exactly the vectors of its window that lie inside the matrix. */
  ghost predicate LoadsInside(c: Config, load: Fetch) {
    var l := c.Side(load.isA);
    |load.mask| == l.cells && forall cell :: 0 <= cell < l.cells ==> (load.mask[cell] <==> Inside(l, load.base, cell))
  }

  /** A vector that starts inside the matrix ends inside it. */
  lemma WholeVector(al: nat, rDim: nat, tile: nat, t: nat, base: nat, col: nat)
    requires al > 0 && rDim % al == 0 && tile % al == 0 && base == t * tile && col % al == 0
    ensures col + base < rDim <==> col + base + al <= rDim
  {
    VectorInside(al, rDim, tile, t, base, col, col + al - 1);
  }

  lemma LoadInside(c: Config, load: Fetch, t: nat, base: nat, n: nat)
    requires c.Valid() && IsLoad(c, load, base, n) && base == t * c.tile
    ensures LoadsInside(c, load)
  {
    var l := c.Side(load.isA);
    forall cell | 0 <= cell < l.cells ensures load.mask[cell] <==> Inside(l, load.base, cell) {
      assert l.Aligned(c.tile, cell);
      WholeVector(l.alignment, l.rDim, c.tile, t, base, l.col(cell));
    }
  }

  /** Wave w's queue: its last loads of this tile, `issued` so far. */
  predicate QueueOf(c: Config, queue: seq<Fetch>, base: nat, issued: int) {
    && |queue| <= issued
    && forall j :: 0 <= j < |queue| ==> IsLoad(c, queue[j], base, issued - |queue| + j)
  }

  /** A register whose load is enabled and complete holds this tile; one of the cleared side that is not
      enabled holds zeros. */
  predicate CellHolds(c: Config, isA: bool, slice: Slice, cell: nat, base: nat, complete: bool) {
    && (c.Side(isA).Enabled(cell, base) && complete ==> slice == From(base))
    && (!c.Side(isA).Enabled(cell, base) && c.Cleared(isA) ==> slice == Blank)
  }

  predicate Completed(c: Config, isA: bool, queues: seq<seq<Fetch>>, cell: nat, issued: int)
  {
    var l := c.Side(isA);
    l.wave(cell) < |queues| && c.Pos(isA, l.issue(cell)) < issued - |queues[l.wave(cell)]|
  }

  ghost predicate BufHolds(c: Config, isA: bool, buf: seq<Slice>, queues: seq<seq<Fetch>>, base: nat, issued: int) {
    && |buf| == c.Side(isA).cells
    && forall cell :: 0 <= cell < c.Side(isA).cells ==>
         CellHolds(c, isA, buf[cell], cell, base, Completed(c, isA, queues, cell, issued))
  }

  /** A tile in LDS or in the operand registers. */
  ghost predicate TileHolds(c: Config, isA: bool, lds: seq<Slice>, base: nat) {
    && |lds| == c.Side(isA).cells
    && forall cell :: 0 <= cell < c.Side(isA).cells ==> CellHolds(c, isA, lds[cell], cell, base, true)
  }

  /** The value at (row, r) of a tile. */
  function Value(mem: (nat, nat) -> int, slice: Slice, row: nat, r: nat): int {
    match slice
    case Blank => 0
    case From(base) => mem(row, base + r)
  }

  /** The product at column r of a tile in element e. */
  function Term(c: Config, ldsA: seq<Slice>, ldsB: seq<Slice>, e: nat, r: nat): int
    requires c.Valid() && |ldsA| == c.a.cells && |ldsB| == c.b.cells && e < c.elems && r < c.tile
  {
    assert Stores(c.a, c.cellA(c.rowOf(e), r), c.rowOf(e), r) && Stores(c.b, c.cellB(c.colOf(e), r), c.colOf(e), r);
    Value(c.memA, ldsA[c.cellA(c.rowOf(e), r)], c.rowOf(e), r) * Value(c.memB, ldsB[c.cellB(c.colOf(e), r)], c.colOf(e), r)
  }

  /** The products of a tile's first `len` columns. */
  ghost function TileSum(c: Config, ldsA: seq<Slice>, ldsB: seq<Slice>, e: nat, len: nat): int
    requires c.Valid() && |ldsA| == c.a.cells && |ldsB| == c.b.cells && e < c.elems && len <= c.tile
  {
    if len == 0 then 0 else TileSum(c, ldsA, ldsB, e, len - 1) + Term(c, ldsA, ldsB, e, len - 1)
  }

  /** Row m of A times row n of B over the first `len` values of k, values past K counting as zero. */
  ghost function Dot(c: Config, m: nat, n: nat, len: nat): int {
    if len == 0 then 0 else Dot(c, m, n, len - 1) + if len - 1 < c.K() then c.memA(m, len - 1) * c.memB(n, len - 1) else 0
  }

  /** An aligned vector lies wholly before K or wholly past it. */
  lemma VectorInside(al: nat, rDim: nat, tile: nat, t: nat, base: nat, col: nat, r: nat)
    requires al > 0 && rDim % al == 0 && tile % al == 0 && base == t * tile && col % al == 0 && col <= r < col + al
    ensures col + base < rDim <==> base + r < rDim
  {
    var u, d, x := tile / al, rDim / al, col / al;
    DivMod(tile, al);
    DivMod(rDim, al);
    DivMod(col, al);
    Associate(t, u, al);
    Distribute(t * u, x, al);
    MulLe(0, t, u);
    var y := t * u + x;
    assert col + base == y * al;
    if y * al < d * al {
      if d <= y { MulLe(d, y, al); }
      MulLe(y + 1, d, al);
      Distribute(y, 1, al);
    }
  }

  ghost predicate IsTerm(c: Config, ldsA: seq<Slice>, ldsB: seq<Slice>, base: nat, m: nat, n: nat, r: nat) {
    && c.cellA(m, r) < |ldsA| && c.cellB(n, r) < |ldsB|
    && Value(c.memA, ldsA[c.cellA(m, r)], m, r) * Value(c.memB, ldsB[c.cellB(n, r)], n, r)
       == if base + r < c.K() then c.memA(m, base + r) * c.memB(n, base + r) else 0
  }

  /** One term: the product of the two tile values is the product of the matrix elements, or zero past K,
      because one of the two sides was cleared. */
  lemma TermExact(c: Config, ldsA: seq<Slice>, ldsB: seq<Slice>, t: nat, base: nat, e: nat, r: nat)
    requires c.Valid() && base == t * c.tile && e < c.elems && r < c.tile
    requires TileHolds(c, true, ldsA, base) && TileHolds(c, false, ldsB, base)
    requires c.rowOf(e) < c.a.sDim && c.colOf(e) < c.b.sDim
    ensures IsTerm(c, ldsA, ldsB, base, c.rowOf(e), c.colOf(e), r)
  {
    var m, n := c.rowOf(e), c.colOf(e);
    var x, y := c.cellA(m, r), c.cellB(n, r);
    assert Stores(c.a, x, m, r) && Stores(c.b, y, n, r);
    assert c.a.Aligned(c.tile, x) && c.b.Aligned(c.tile, y);
    VectorInside(c.a.alignment, c.a.rDim, c.tile, t, base, c.a.col(x), r);
    VectorInside(c.b.alignment, c.b.rDim, c.tile, t, base, c.b.col(y), r);
    assert CellHolds(c, true, ldsA[x], x, base, true) && CellHolds(c, false, ldsB[y], y, base, true);
  }

  lemma {:induction false} TermsAdd(c: Config, ldsA: seq<Slice>, ldsB: seq<Slice>, base: nat, e: nat, len: nat)
    requires c.Valid() && |ldsA| == c.a.cells && |ldsB| == c.b.cells && e < c.elems && len <= c.tile
    requires forall r :: 0 <= r < len ==> IsTerm(c, ldsA, ldsB, base, c.rowOf(e), c.colOf(e), r)
    ensures Dot(c, c.rowOf(e), c.colOf(e), base + len)
         == Dot(c, c.rowOf(e), c.colOf(e), base) + TileSum(c, ldsA, ldsB, e, len)
  {
    if len > 0 {
      TermsAdd(c, ldsA, ldsB, base, e, len - 1);
      assert IsTerm(c, ldsA, ldsB, base, c.rowOf(e), c.colOf(e), len - 1);
      assert base + len - 1 == base + (len - 1);
    }
  }

  lemma TileExact(c: Config, ldsA: seq<Slice>, ldsB: seq<Slice>, t: nat, base: nat, e: nat)
    requires c.Valid() && base == t * c.tile && e < c.elems
    requires TileHolds(c, true, ldsA, base) && TileHolds(c, false, ldsB, base)
    requires c.rowOf(e) < c.a.sDim && c.colOf(e) < c.b.sDim
    ensures Dot(c, c.rowOf(e), c.colOf(e), base + c.tile)
         == Dot(c, c.rowOf(e), c.colOf(e), base) + TileSum(c, ldsA, ldsB, e, c.tile)
  {
    forall r | 0 <= r < c.tile ensures IsTerm(c, ldsA, ldsB, base, c.rowOf(e), c.colOf(e), r) {
      TermExact(c, ldsA, ldsB, t, base, e, r);
    }
    TermsAdd(c, ldsA, ldsB, base, e, c.tile);
  }

  lemma {:induction false} PastK(c: Config, m: nat, n: nat, len: nat)
    requires len >= c.K()
    ensures Dot(c, m, n, len) == Dot(c, m, n, c.K())
  {
    if len > c.K() { PastK(c, m, n, len - 1); }
  }
}
