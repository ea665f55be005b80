/** The flat pipeline's configuration as `gemm_kernel` builds it from its block tile: every element of the block
    tile is an output, and every operand of it lies in the register vector that `gld_iterator_s_r` and
    `sst_iterator_r0_s_r1` assign to it. */
module FlatLayout {
  import opened Arith
  import opened LdsLayout
  import opened MatrixProduct
  import TileScheduler
  import PipelineFlat
  import FlatWaves
  import FlatWavesSums
  import FlatWavesSafety

  /** Register vector i of thread tid has number tid * issues + i. */
  function LayoutOf(t: Tile, sDim: nat, rDim: nat): PipelineFlat.Layout
    requires t.Valid()
  {
    PipelineFlat.Layout(Product(t.block, t.GldIssues()), t.GldIssues(), t.align,
      cell => ThreadOf(t, cell) / 64, cell => VectorOf(t, cell),
      cell => GldRow(t, ThreadOf(t, cell), Product(VectorOf(t, cell), t.align)),
      cell => GldCol(t, ThreadOf(t, cell), Product(VectorOf(t, cell), t.align)), sDim, rDim)
  }

  function ThreadOf(t: Tile, cell: nat): nat
    requires t.Valid()
  {
    if t.GldIssues() == 0 then 0 else DivMod(cell, t.GldIssues()); cell / t.GldIssues()
  }

  function VectorOf(t: Tile, cell: nat): nat
    requires t.Valid()
  {
    if t.GldIssues() == 0 then 0 else DivMod(cell, t.GldIssues()); cell % t.GldIssues()
  }

  /** The register vector of element (row, k). */
  function CellOf(t: Tile, row: nat, k: nat): nat
    requires t.Valid()
  {
    if t.Packs() == 0 then 0 else
      DivMod(k, t.pack);
      var v := Vec(row, k / t.pack);
      DivMod(OwnerIssue(t, v), t.Packs());
      Product(OwnerThread(t, v), t.GldIssues()) + OwnerIssue(t, v) / t.Packs()
  }

  /** Columns of register vectors are aligned. */
  lemma VectorStart(t: Tile, tid: nat, i: nat)
    requires t.Valid()
    ensures GldRow(t, tid, Product(i, t.align)) == tid / t.Across() + i * t.Rows()
    ensures GldCol(t, tid, Product(i, t.align)) == tid % t.Across() * t.align
    ensures GldCol(t, tid, Product(i, t.align)) % t.align == 0
  {
    DivModUnique(i * t.align, t.align, i, 0);
    DivMod(tid, t.Across());
    DivModUnique(tid % t.Across() * t.align, t.align, tid % t.Across(), 0);
  }

  lemma CellInRange(t: Tile, waves: nat, cell: nat)
    requires t.Valid() && t.block == waves * 64 && cell < Product(t.block, t.GldIssues())
    ensures t.GldIssues() > 0 && ThreadOf(t, cell) / 64 < waves && VectorOf(t, cell) < t.GldIssues()
  {
    Factors(t);
    DivMod(cell, t.GldIssues());
    DivLt(cell, t.GldIssues(), t.block);
  }

  lemma LayoutFits(t: Tile, waves: nat, sDim: nat, rDim: nat)
    requires t.Valid() && t.block == waves * 64 && rDim % t.align == 0
    ensures LayoutOf(t, sDim, rDim).Fits(waves, t.r)
  {
    var l := LayoutOf(t, sDim, rDim);
    forall cell: nat | cell < l.cells
      ensures l.wave(cell) < waves && l.issue(cell) < l.issues && l.Aligned(t.r, cell)
    {
      CellInRange(t, waves, cell);
      VectorStart(t, ThreadOf(t, cell), VectorOf(t, cell));
    }
  }

  lemma CellParts(t: Tile, tid: nat, i: nat)
    requires t.Valid() && tid < t.block && i < t.GldIssues()
    ensures var cell := Product(tid, t.GldIssues()) + i;
      cell < Product(t.block, t.GldIssues()) && ThreadOf(t, cell) == tid && VectorOf(t, cell) == i
  {
    RowIndex(tid, i, t.block, t.GldIssues());
    DivModUnique(tid * t.GldIssues() + i, t.GldIssues(), tid, i);
  }

  /** The vector that a store issue belongs to. */
  lemma IssueVector(t: Tile, v: Vec)
    requires t.Valid() && t.Packs() > 0 && InTile(t, v)
    ensures var tid, i := OwnerThread(t, v), OwnerIssue(t, v) / t.Packs();
      && tid < t.block && 0 <= i < t.GldIssues() && v.row == tid / t.Across() + i * t.Rows()
      && tid % t.Across() * t.align <= v.plane * t.pack
      && v.plane * t.pack + t.pack <= tid % t.Across() * t.align + t.align
  {
    Factors(t);
    VecToStore(t, v);
    var tid, q := OwnerThread(t, v), OwnerIssue(t, v);
    DivMod(q, t.Packs());
    DivLt(q, t.Packs(), t.GldIssues());
    var across := tid % t.Across();
    Distribute(across * t.Packs(), q % t.Packs(), t.pack);
    Associate(across, t.Packs(), t.pack);
    Distribute(q % t.Packs(), 1, t.pack);
    MulLe(0, q % t.Packs(), t.pack);
    MulLe(q % t.Packs() + 1, t.Packs(), t.pack);
  }

  /** The store's owner of an element is the thread whose global load fetched it. */
  lemma CellStores(t: Tile, sDim: nat, rDim: nat, row: nat, k: nat)
    requires t.Valid() && row < t.s && k < t.r
    ensures PipelineFlat.Stores(LayoutOf(t, sDim, rDim), CellOf(t, row, k), row, k)
  {
    Factors(t);
    CellInside(t, row, k);
    DivMod(k, t.pack);
    var v := Vec(row, k / t.pack);
    IssueVector(t, v);
    var tid, i := OwnerThread(t, v), OwnerIssue(t, v) / t.Packs();
    CellParts(t, tid, i);
    VectorStart(t, tid, i);
  }

  /** Block tile and operands of `gemm_kernel` with BLOCK_K_WAVES = 1: `mWaves` by `nWaves` waves, mfmas over `inst`
      rows and columns and `kInst` values of k. */
  datatype Kernel = Kernel(a: Tile, b: Tile, mWaves: nat, nWaves: nat, inst: nat, kInst: nat, aFirst: bool,
                           mLeft: nat, nLeft: nat, k: nat, memA: (nat, nat) -> int, memB: (nat, nat) -> int)
  {
    predicate Valid() {
      && a.Valid() && b.Valid() && a.block == b.block == Waves() * 64 && Waves() > 0 && a.r == b.r
      && RowsA() > 0 && a.s % RowsA() == 0 && RowsB() > 0 && b.s % RowsB() == 0 && kInst > 0 && a.r % kInst == 0
      && k % a.align == 0 && k % b.align == 0
    }

    function Waves(): nat { Product(mWaves, nWaves) }

    /** Rows per fragment row of all waves, and columns per fragment column. */
    function RowsA(): nat { Product(mWaves, inst) }
    function RowsB(): nat { Product(nWaves, inst) }

    function Repeats(): nat requires RowsA() > 0 && RowsB() > 0 { Product(a.s / RowsA(), b.s / RowsB()) }
  }

  /** Output element e of the block tile is row e / N_PER_BLOCK and column e % N_PER_BLOCK. */
  function RowOf(g: Kernel, e: nat): nat { if g.b.s == 0 then 0 else DivMod(e, g.b.s); e / g.b.s }
  function ColOf(g: Kernel, e: nat): nat { if g.b.s == 0 then 0 else e % g.b.s }

  function FragmentOf(g: Kernel, e: nat): nat
    requires g.RowsA() > 0 && g.RowsB() > 0
  {
    DivMod(RowOf(g, e), g.RowsA());
    DivMod(ColOf(g, e), g.RowsB());
    Product(RowOf(g, e) / g.RowsA(), g.b.s / g.RowsB()) + ColOf(g, e) / g.RowsB()
  }

  function ConfigOf(g: Kernel): PipelineFlat.Config
    requires g.Valid()
  {
    PipelineFlat.Config(g.Waves(), g.aFirst, g.a.s > g.b.s, LayoutOf(g.a, g.mLeft, g.k), LayoutOf(g.b, g.nLeft, g.k),
      g.a.r, g.kInst, g.a.r / g.kInst, g.Repeats(), Product(g.a.s, g.b.s),
      e => FragmentOf(g, e), e => RowOf(g, e), e => ColOf(g, e),
      (row, r) => CellOf(g.a, row, r), (row, r) => CellOf(g.b, row, r), g.memA, g.memB)
  }

  lemma OutputInTile(g: Kernel, e: nat)
    requires g.Valid() && e < Product(g.a.s, g.b.s)
    ensures RowOf(g, e) < g.a.s && ColOf(g, e) < g.b.s && FragmentOf(g, e) < g.Repeats()
  {
    DivMod(e, g.b.s);
    DivLt(e, g.b.s, g.a.s);
    QuotientPositive(g.a.s, g.RowsA());
    QuotientPositive(g.b.s, g.RowsB());
    DivLt(RowOf(g, e), g.RowsA(), g.a.s / g.RowsA());
    DivLt(ColOf(g, e), g.RowsB(), g.b.s / g.RowsB());
    RowIndex(RowOf(g, e) / g.RowsA(), ColOf(g, e) / g.RowsB(), g.a.s / g.RowsA(), g.b.s / g.RowsB());
  }

  /** What the flat pipeline's proof asks of a configuration holds for every kernel shape with BLOCK_K_WAVES = 1: each
      output's operands are where the fragments read them. */
  lemma KernelConfigValid(g: Kernel)
    requires g.Valid()
    ensures ConfigOf(g).Valid()
  {
    var c := ConfigOf(g);
    LayoutFits(g.a, g.Waves(), g.mLeft, g.k);
    LayoutFits(g.b, g.Waves(), g.nLeft, g.k);
    QuotientPositive(g.a.r, g.kInst);
    QuotientPositive(g.a.s, g.RowsA());
    QuotientPositive(g.b.s, g.RowsB());
    MulLt(0, g.a.s / g.RowsA(), g.b.s / g.RowsB());
    forall e: nat | e < c.elems ensures c.frag(e) < c.plane { OutputInTile(g, e); }
    forall e: nat, r: nat | e < c.elems && r < c.tile ensures PipelineFlat.Stores(c.a, c.cellA(c.rowOf(e), r), c.rowOf(e), r) {
      OutputInTile(g, e);
      CellStores(g.a, g.mLeft, g.k, RowOf(g, e), r);
    }
    forall e: nat, r: nat | e < c.elems && r < c.tile ensures PipelineFlat.Stores(c.b, c.cellB(c.colOf(e), r), c.colOf(e), r) {
      OutputInTile(g, e);
      CellStores(g.b, g.nLeft, g.k, ColOf(g, e), r);
    }
  }

  /** The wave whose part of its fragment an output lies in. */
  function WaveOf(g: Kernel, e: nat): nat
    requires g.RowsA() > 0 && g.RowsB() > 0 && g.inst > 0
  {
    DivMod(RowOf(g, e) % g.RowsA(), g.inst);
    DivMod(ColOf(g, e) % g.RowsB(), g.inst);
    Product(RowOf(g, e) % g.RowsA() / g.inst, g.nWaves) + ColOf(g, e) % g.RowsB() / g.inst
  }

  /** The same kernel at wave granularity; `k_iters` calls and at least the tail. */
  function MachineOf(g: Kernel): FlatWaves.Machine
    requires g.Valid() && g.inst > 0
  {
    var kIters := TileScheduler.CeilDiv(g.k, g.a.r);
    FlatWaves.Machine(ConfigOf(g), g.a.s / g.RowsA(), g.b.s / g.RowsB(), if kIters > 1 then kIters else 1, e => WaveOf(g, e))
  }

  lemma WaveInRange(g: Kernel, e: nat)
    requires g.Valid() && g.inst > 0
    ensures WaveOf(g, e) < g.Waves()
  {
    WaveInside(RowOf(g, e), g.RowsA(), g.inst, g.mWaves);
    WaveInside(ColOf(g, e), g.RowsB(), g.inst, g.nWaves);
    RowIndex(RowOf(g, e) % g.RowsA() / g.inst, ColOf(g, e) % g.RowsB() / g.inst, g.mWaves, g.nWaves);
  }

  lemma WaveInside(x: nat, rows: nat, inst: nat, waves: nat)
    requires inst > 0 && rows > 0 && rows == waves * inst
    ensures 0 <= x % rows / inst < waves
  {
    DivMod(x, rows);
    DivMod(x % rows, inst);
    DivLt(x % rows, inst, waves);
  }

  lemma KernelMachineValid(g: Kernel)
    requires g.Valid() && g.inst > 0
    ensures MachineOf(g).Valid()
  {
    var m := MachineOf(g);
    KernelConfigValid(g);
    Factors(g.a);
    Factors(g.b);
    QuotientPositive(g.a.r, g.kInst);
    QuotientPositive(g.a.s, g.RowsA());
    QuotientPositive(g.b.s, g.RowsB());
    FlatWavesSums.StartIsProduct(m, m.calls);
    TileScheduler.CeilCovers(g.k, g.a.r);
    MulLe(TileScheduler.CeilDiv(g.k, g.a.r), m.calls, g.a.r);
    forall e: nat | e < m.c.elems ensures m.waveOf(e) < m.c.waves { WaveInRange(g, e); }
  }

  /** The calls are as few as reach K, and at least the tail. */
  lemma CallsLeast(g: Kernel)
    requires g.Valid() && g.inst > 0
    ensures var calls := MachineOf(g).calls; g.k <= calls * g.a.r && (calls == 1 || (calls - 1) * g.a.r < g.k)
  {
    var kIters := TileScheduler.CeilDiv(g.k, g.a.r);
    TileScheduler.CeilCovers(g.k, g.a.r);
    DivMod(g.k + g.a.r - 1, g.a.r);
    Distribute(kIters, 1, g.a.r);
    if kIters <= 1 { MulLe(kIters, 1, g.a.r); }
  }

  /** At the end of every run of every kernel, each in-range output of the block tile is its product over k < K. */
  lemma EveryOutputIsProduct(g: Kernel, s: FlatWaves.State, row: nat, col: nat)
    requires g.Valid() && g.inst > 0 && row < g.a.s && col < g.b.s && row < g.mLeft && col < g.nLeft
    requires FlatWavesSafety.Reachable(MachineOf(g), s) && forall w :: 0 <= w < |s.waves| ==> s.waves[w].stage == FlatWaves.Done
    ensures var e := Product(row, g.b.s) + col; var w := WaveOf(g, e);
      && w < |s.waves| && e < |s.waves[w].acc|
      && s.waves[w].acc[e] == RowProduct(g.memA, g.memB, row, col, g.k)
  {
    var e := Product(row, g.b.s) + col;
    RowIndex(row, col, g.a.s, g.b.s);
    DivModUnique(e, g.b.s, row, col);
    WaveInRange(g, e);
    FlatWavesSafety.FinalProduct(MachineOf(g), s, e);
    DotIsProduct(ConfigOf(g), g.memA, g.memB, row, col, g.k);
  }

  lemma {:induction false} DotIsProduct(c: PipelineFlat.Config, a: (nat, nat) -> int, b: (nat, nat) -> int, m: nat, n: nat, len: nat)
    requires c.memA == a && c.memB == b && len <= c.K()
    ensures PipelineFlat.Dot(c, m, n, len) == RowProduct(a, b, m, n, len)
  {
    if len > 0 { DotIsProduct(c, a, b, m, n, len - 1); }
  }

  /** GLD_BUF_CLEAR zeroes the side with fewer rows, and A when they are equal. */
  lemma ClearsSmaller(g: Kernel)
    requires g.Valid()
    ensures ConfigOf(g).Cleared(true) <==> g.a.s <= g.b.s
    ensures ConfigOf(g).Cleared(false) <==> g.b.s < g.a.s
  {
  }

  /** The tile shape of `hgemm_mfma_invoker.hpp`: tiles of 128 by 256 by 32, four waves along M, 32x32x16 mfmas and
      vectors of eight. */
  function InvokerShape(m: nat, n: nat, k: nat, aFirst: bool, memA: (nat, nat) -> int, memB: (nat, nat) -> int): Kernel {
    Kernel(Tile(128, 32, 256, 8, 8), Tile(256, 32, 256, 8, 8), 4, 1, 32, 16, aFirst, m, n, k, memA, memB)
  }

  /** It meets the layout conditions for any K that its alignments allow. */
  lemma InvokerShapeFits(m: nat, n: nat, k: nat, aFirst: bool, memA: (nat, nat) -> int, memB: (nat, nat) -> int)
    ensures InvokerShape(m, n, k, aFirst, memA, memB).Valid() <==> k % 8 == 0
    ensures k % 8 == 0 ==> ConfigOf(InvokerShape(m, n, k, aFirst, memA, memB)).Valid()
  {
    assert Tile(128, 32, 256, 8, 8).Valid() && Tile(256, 32, 256, 8, 8).Valid();
    if k % 8 == 0 { KernelConfigValid(InvokerShape(m, n, k, aFirst, memA, memB)); }
  }
}
