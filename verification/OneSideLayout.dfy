/** The one-sided pipeline's configuration as `gemm_kernel` builds it when A bypasses LDS: what the stores put in
    each LDS word and the loads in each X register, which of them the lanes feed to the mfmas, and which wave,
    accumulator and element hold an output. */
module OneSideLayout {
  import opened Arith
  import opened LoadOrder
  import opened LdsLayout
  import opened LdsFragments
  import opened MatrixProduct
  import opened PipelineOneSide
  import opened OneSideSums
  import opened OneSideSafety

  /** `rows` is M_PER_BLOCK; `y` the B tile in LDS; `mWaves`, `nWaves` and `kWaves` are BLOCK_WAVES. */
  datatype Kernel = Kernel(rows: nat, y: Tile, inst: Mfma, mWaves: nat, nWaves: nat, kWaves: nat, xFirst: bool,
                           calls: seq<Call>, a: (nat, nat) -> int, b: (nat, nat) -> int)
  {
    /** The side that bypasses LDS and the side that does not. */
    function X(): Side { Side(Tile(rows, y.r, y.block, inst.pack, inst.pack), inst, mWaves) }
    function Y(): Side { Side(y, inst, nWaves) }

    function Waves(): nat { Product(Product(mWaves, nWaves), kWaves) }

    /** Tiles that the fragments cover, and the iterator's static assertion. */
    ghost predicate Valid() {
      && inst.Valid() && y.Valid() && y.pack == inst.pack && y.block == Waves() * 64 && rows > 0
      && mWaves > 0 && nWaves > 0 && kWaves > 0 && X().Rows() > 0 && Y().Rows() > 0
      && rows % X().Rows() == 0 && y.s % Y().Rows() == 0 && y.r % inst.k == 0
      && mWaves * nWaves * kWaves * 64 > 0 && IssuesMatch(inst, rows, y.r, mWaves, nWaves, kWaves)
      && |calls| >= 1 && OneCallPerTile(calls, |calls|)
    }

    /** What the functions below divide by. */
    predicate Sized() {
      && inst.m > 0 && inst.k > 0 && inst.pack > 0 && nWaves > 0 && kWaves > 0
      && y.Valid() && y.Packs() > 0 && y.Plane() > 0
      && X().Rows() > 0 && Y().Rows() > 0 && Y().SRepeat() > 0 && Y().RRepeat() > 0
    }

    /** The thread that stores word x of LDS, and the element of its registers that it stores there. */
    function OwnerThreadAt(x: nat): nat requires Sized() { OwnerThread(y, VecAt(y, x)) }

    function OwnerElementAt(x: nat): nat requires Sized() { Product(OwnerIssue(y, VecAt(y, x)), y.pack) + PlaceAt(y, x) }

    /** Its wave, none for padding, and its register. */
    function OwnerWave(x: nat): nat requires Sized() { if IsStored(y, x) then OwnerThreadAt(x) / 64 else Waves() }

    function OwnerRegister(x: nat): nat requires Sized() { DivMod(OwnerElementAt(x), y.align); OwnerElementAt(x) / y.align }

    /** The element of the tile that the global load put there. */
    function CellCol(x: nat): nat requires Sized() { GldRow(y, OwnerThreadAt(x), OwnerElementAt(x)) }

    function CellK(x: nat): nat requires Sized() { GldCol(y, OwnerThreadAt(x), OwnerElementAt(x)) }

    /** The element that the direct load put in value v of a lane's X register. */
    function RegRow(w: nat, lane: nat, reg: nat): nat requires Sized() { DirectRow(X(), kWaves, w, lane, reg) }

    function RegK(lane: nat, reg: nat, v: nat): nat requires Sized() { DirectK(X(), lane, reg, v) }

    /** The mfma takes operand k of its row (or column) i from this lane, and which of the lane's values. */
    function Lane(i: nat, k: nat): nat
      requires Sized()
    {
      DivMod(k, inst.pack);
      i + Product(k / inst.pack, inst.m)
    }

    function Value(k: nat): nat requires Sized() { k % inst.pack }

    function XLane(e: nat, k: nat): nat requires Sized() { DivMod(e, inst.m); Lane(e / inst.m, k) }

    /** The LDS word of operand k of column e % m in fragment f: the `sld` offset of the lane that feeds it. */
    function ReadWord(w: nat, f: nat, e: nat, k: nat): nat
      requires Sized()
    {
      DivMod(f, Y().SRepeat());
      SldOffset(Y(), w % nWaves, Lane(e % inst.m, k), f % Y().SRepeat(), f / Y().SRepeat()) + Value(k)
    }

    /** Element e of an m by m accumulator: row e / m and column e % m, of the fragment row or column and the wave. */
    function XRow(w: nat, ix: nat, e: nat): nat
      requires Sized()
    {
      DivMod(w, nWaves);
      DivMod(e, inst.m);
      Product(ix, X().Rows()) + (Product(w / nWaves, inst.m) + e / inst.m)
    }

    function YCol(w: nat, iy: nat, e: nat): nat
      requires Sized()
    {
      Product(iy, Y().Rows()) + (Product(w % nWaves, inst.m) + e % inst.m)
    }
  }

  function ConfigOf(g: Kernel): Config
    requires g.Sized()
  {
    Config(g.Waves(), Order(g.xFirst, Product(g.X().SRepeat(), g.Y().RRepeat()), g.y.GldIssues(), g.y.r),
      g.X().SRepeat(), g.Y().SRepeat(), g.Y().RRepeat(), g.inst.k, g.y.Size(), Product(g.inst.m, g.inst.m), g.calls,
      x => g.OwnerWave(x), x => g.OwnerRegister(x), x => g.CellCol(x), x => g.CellK(x),
      (w, lane, reg) => g.RegRow(w, lane, reg), (lane, reg, v) => g.RegK(lane, reg, v),
      (w, f, e, k) => g.ReadWord(w, f, e, k), (e, k) => g.XLane(e, k), (e, k) => g.Value(k),
      (w, ix, e) => g.XRow(w, ix, e), (w, iy, e) => g.YCol(w, iy, e), g.a, g.b)
  }

  lemma Repeats(g: Kernel)
    requires g.Valid()
    ensures g.nWaves == 1 && g.kWaves == 1 && g.Waves() == g.mWaves && g.Sized()
    ensures g.y.s == g.Y().SRepeat() * g.Y().Rows() && g.rows == g.X().SRepeat() * g.X().Rows() && g.X().SRepeat() > 0
    ensures g.y.r == g.Y().RRepeat() * g.inst.k && g.Y().RRepeat() == g.X().RRepeat()
    ensures g.y.GldIssues() > 0 && g.Y().Valid() && g.Y().Rows() == g.inst.m
  {
    DirectNeedsOneSide(g.inst, g.rows, g.y.r, g.mWaves, g.nWaves, g.kWaves);
    Factors(g.y);
    QuotientPositive(g.y.s, g.Y().Rows());
    QuotientPositive(g.rows, g.X().Rows());
    QuotientPositive(g.y.r, g.inst.k);
  }

  /** The lane and value that operand k is taken from. */
  lemma LaneParts64(g: Kernel, i: nat, k: nat)
    requires g.inst.Valid() && g.Sized() && i < g.inst.m && k < g.inst.k
    ensures g.Lane(i, k) < 64 && g.Lane(i, k) % g.inst.m == i && g.Lane(i, k) / g.inst.m == k / g.inst.pack
    ensures g.Value(k) < g.inst.pack && k == k / g.inst.pack * g.inst.pack + g.Value(k)
  {
    DivMod(k, g.inst.pack);
    DivMod(64, g.inst.m);
    DivLt(k, g.inst.pack, 64 / g.inst.m);
    RowIndex(k / g.inst.pack, i, 64 / g.inst.m, g.inst.m);
    DivModUnique(g.Lane(i, k), g.inst.m, k / g.inst.pack, i);
  }

  /** What the store left in a word of the tile: the element that belongs there. */
  lemma WordElement(g: Kernel, row: nat, k: nat)
    requires g.Valid() && g.Sized() && row < g.y.s && k < g.y.r
    ensures var x := Cell(g.y, row, k);
      && x < g.y.Size() && g.OwnerWave(x) < g.Waves() && g.OwnerRegister(x) < g.y.GldIssues()
      && g.CellCol(x) == row && g.CellK(x) == k
  {
    var x := Cell(g.y, row, k);
    CellInside(g.y, row, k);
    CellIsAt(g.y, row, k);
    StoredWord(g.y, x);
    var v := VecAt(g.y, x);
    VecToStore(g.y, v);
    StoredElements(g.y, OwnerThread(g.y, v), OwnerIssue(g.y, v), PlaceAt(g.y, x));
    DivMod(k, g.y.pack);
    DivLt(OwnerThread(g.y, v), 64, g.Waves());
    DivLt(g.OwnerElementAt(x), g.y.align, g.y.GldIssues());
  }

  /** The word a lane reads for a product holds the product's element. */
  lemma ReadsElement(g: Kernel, w: nat, f: nat, e: nat, k: nat)
    requires g.Valid() && g.Sized()
    requires f < Product(g.Y().RRepeat(), g.Y().SRepeat()) && e < Product(g.inst.m, g.inst.m) && k < g.inst.k
    ensures ConfigOf(g).ReadsOperand(w, f, e, k)
  {
    Repeats(g);
    var lane, iS, iR := g.Lane(e % g.inst.m, k), f % g.Y().SRepeat(), f / g.Y().SRepeat();
    LaneParts64(g, e % g.inst.m, k);
    DivMod(f, g.Y().SRepeat());
    DivLt(f, g.Y().SRepeat(), g.Y().RRepeat());
    FragmentAddress(g.Y(), 0, lane, iS, iR, g.Value(k));
    FeedInside(g.Y(), 0, lane, iS, iR, g.Value(k));
    WordElement(g, FeedRow(g.Y(), 0, lane, iS), FeedK(g.Y(), lane, iR, g.Value(k)));
  }

  /** So does the X register of the lane. */
  lemma RegisterElement(g: Kernel, w: nat, reg: nat, e: nat, k: nat)
    requires g.Valid() && g.Sized() && e < Product(g.inst.m, g.inst.m) && k < g.inst.k
    ensures ConfigOf(g).HoldsOperand(w, reg, e, k)
  {
    Repeats(g);
    DivMod(e, g.inst.m);
    DivLt(e, g.inst.m, g.inst.m);
    LaneParts64(g, e / g.inst.m, k);
    DirectRegister(g.X(), g.kWaves, w, g.XLane(e, k), reg, g.Value(k));
  }

  /** The machine's proof covers every kernel that compiles: nothing about where operands are is assumed. */
  lemma KernelConfigValid(g: Kernel)
    requires g.Valid()
    ensures g.Sized() && ConfigOf(g).Valid() && ConfigOf(g).Layout()
  {
    Repeats(g);
    var c := ConfigOf(g);
    forall x: nat | x < c.cells && c.ownerWave(x) < c.waves ensures c.ownerIssue(x) < c.order.ny {
      StoredRegister(g, x);
    }
    forall w: nat, f: nat, e: nat, k: nat | w < c.waves && f < c.Frags() && e < c.elems && k < c.kInst
      ensures c.ReadsOperand(w, f, e, k)
    {
      ReadsElement(g, w, f, e, k);
    }
    forall w: nat, reg: nat, e: nat, k: nat | w < c.waves && reg < c.order.nx && e < c.elems && k < c.kInst
      ensures c.HoldsOperand(w, reg, e, k)
    {
      RegisterElement(g, w, reg, e, k);
    }
  }

  lemma StoredRegister(g: Kernel, x: nat)
    requires g.Valid() && g.Sized() && g.OwnerWave(x) < g.Waves()
    ensures g.OwnerRegister(x) < g.y.GldIssues()
  {
    StoredWord(g.y, x);
    var v := VecAt(g.y, x);
    StoredElements(g.y, OwnerThread(g.y, v), OwnerIssue(g.y, v), PlaceAt(g.y, x));
    DivLt(g.OwnerElementAt(x), g.y.align, g.y.GldIssues());
  }

  // ---------------------------------------------------------------- outputs

  /** Where output (row, col) of the block tile is accumulated. */
  datatype Output = Output(w: nat, q: nat, e: nat)

  function OutputOf(g: Kernel, row: nat, col: nat): Output
    requires g.Sized()
  {
    var inBand := row % g.X().Rows();
    DivMod(row, g.X().Rows());
    DivMod(inBand, g.inst.m);
    DivMod(col, g.inst.m);
    Output(inBand / g.inst.m, Product(row / g.X().Rows(), g.Y().SRepeat()) + col / g.inst.m,
           Product(inBand % g.inst.m, g.inst.m) + col % g.inst.m)
  }

  /** Every output has a wave, an accumulator and an element. */
  lemma OutputHolds(g: Kernel, row: nat, col: nat)
    requires g.Valid() && g.Sized() && row < g.rows && col < g.y.s
    ensures var o, c := OutputOf(g, row, col), ConfigOf(g);
      && o.w < c.waves && o.q < c.Plane() && o.e < c.elems
      && c.xRow(o.w, o.q / c.yRepeat, o.e) == row && c.yCol(o.w, o.q % c.yRepeat, o.e) == col
  {
    Repeats(g);
    var m, band, inBand := g.inst.m, g.X().Rows(), row % g.X().Rows();
    DivMod(row, band);
    DivLt(row, band, g.X().SRepeat());
    DivMod(inBand, m);
    DivLt(inBand, m, g.mWaves);
    DivMod(col, m);
    DivLt(col, m, g.Y().SRepeat());
    RowIndex(row / band, col / m, g.X().SRepeat(), g.Y().SRepeat());
    RowIndex(inBand % m, col % m, m, m);
    DivModUnique(OutputOf(g, row, col).q, g.Y().SRepeat(), row / band, col / m);
    DivModUnique(OutputOf(g, row, col).e, m, inBand % m, col % m);
  }

  /** At the end of every run, each output of the block tile is its full dot product over K. */
  lemma EveryOutputIsProduct(g: Kernel, s: State, row: nat, col: nat)
    requires g.Valid() && g.Sized() && row < g.rows && col < g.y.s
    requires Reachable(ConfigOf(g), s) && forall w :: 0 <= w < |s.waves| ==> s.waves[w].stage == Done
    ensures var o := OutputOf(g, row, col);
      && o.w < |s.waves| && o.q < |s.waves[o.w].acc| && o.e < |s.waves[o.w].acc[o.q]|
      && s.waves[o.w].acc[o.q][o.e] == RowProduct(g.a, g.b, row, col, |g.calls| * g.y.r)
  {
    OutputHolds(g, row, col);
    var o := OutputOf(g, row, col);
    FinalProduct(ConfigOf(g), s, o.w, o.q, o.e);
    DotIsProduct(ConfigOf(g), g.a, g.b, row, col, |g.calls| * g.y.r);
  }

  lemma {:induction false} DotIsProduct(c: Config, a: (nat, nat) -> int, b: (nat, nat) -> int, m: nat, n: nat, len: nat)
    requires c.a == a && c.b == b
    ensures Dot(c, m, n, len) == RowProduct(a, b, m, n, len)
  {
    if len > 0 { DotIsProduct(c, a, b, m, n, len - 1); }
  }
}
