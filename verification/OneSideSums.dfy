/** What every step of the one-sided pipeline keeps: the accumulators, up to the full product. */
module OneSideSums {
  import opened Arith
  import opened LoadOrder
  import opened MfmaOrder
  import opened PipelineOneSide
  import opened OneSideLoads
  import opened OneSideTile

  /** Row m of `a` times row n of `b` over the first `len` values of k. */
  ghost function Dot(c: Config, m: nat, n: nat, len: nat): int {
    if len == 0 then 0 else Dot(c, m, n, len - 1) + c.a(m, len - 1) * c.b(n, len - 1)
  }

  lemma DotNext(c: Config, m: nat, n: nat, len: nat)
    ensures Dot(c, m, n, len + 1) == Dot(c, m, n, len) + c.a(m, len) * c.b(n, len)
  {
  }

  /** Up to which k accumulator q sums. */
  function Covered(c: Config, v: Wave, q: nat): int
    requires c.Plane() > 0
  {
    if v.round == 0 then 0
    else match v.stage
      case Mfma(j) => c.order.Start(v.round - 1) + SlicesDone(c.Plane(), j, q) * c.kInst
      case AtBarrierB | YFence | Store | Done => c.order.Start(v.round)
      case _ => c.order.Start(v.round - 1)
  }

  ghost predicate Holds(c: Config, w: nat, q: nat, acc: seq<int>, len: int)
    requires c.yRepeat > 0
  {
    && |acc| == c.elems && len >= 0
    && forall e :: 0 <= e < c.elems ==> acc[e] == Dot(c, c.xRow(w, q / c.yRepeat, e), c.yCol(w, q % c.yRepeat, e), len)
  }

  ghost predicate SumsInv(c: Config, w: nat, v: Wave)
    requires ShapeOf(c, v) && c.yRepeat > 0 && c.Plane() > 0
  {
    forall q :: 0 <= q < c.Plane() ==> Holds(c, w, q, v.acc[q], Covered(c, v, q))
  }

  // ---------------------------------------------------------------- one product

  /** The fragment and the X register hold the operands of element e's product of rows m and n from `off` on. */
  ghost predicate Operands(c: Config, w: nat, reg: nat, f: nat, e: nat, m: nat, n: nat, off: nat) {
    forall k :: 0 <= k < c.kInst ==> OperandPair(c, w, reg, f, e, m, n, off, k)
  }

  ghost predicate OperandPair(c: Config, w: nat, reg: nat, f: nat, e: nat, m: nat, n: nat, off: nat, k: nat) {
    var cell, lane, y := c.readCell(w, f, e, k), c.xLane(e, k), c.xPlace(e, k);
    && c.Written(cell) && c.cellCol(cell) == n && c.cellK(cell) == off + k
    && c.regRow(w, lane, reg) == m && c.regK(lane, reg, y) == off + k
  }

  lemma ValidOperands(c: Config, w: nat, reg: nat, f: nat, e: nat)
    requires c.Valid() && c.Layout() && w < c.waves && reg < c.order.nx && f < c.Frags() && e < c.elems
    requires reg % c.kRepeat == f / c.yRepeat
    ensures reg % c.kRepeat * c.kInst >= 0
    ensures Operands(c, w, reg, f, e, c.xRow(w, reg / c.kRepeat, e), c.yCol(w, f % c.yRepeat, e), reg % c.kRepeat * c.kInst)
  {
    MulLe(0, reg % c.kRepeat, c.kInst);
    forall k | 0 <= k < c.kInst
      ensures OperandPair(c, w, reg, f, e, c.xRow(w, reg / c.kRepeat, e), c.yCol(w, f % c.yRepeat, e),
                          reg % c.kRepeat * c.kInst, k)
    {
      assert c.ReadsOperand(w, f, e, k) && c.HoldsOperand(w, reg, e, k);
    }
  }

  /** The k-th product of the mfma is that of the matrix elements at `first + k`. */
  ghost predicate IsTerm(c: Config, w: nat, reg: nat, x: Slice, f: nat, ys: seq<Slice>, e: nat, m: nat, n: nat, first: nat, k: nat) {
    XValue(c, w, reg, x, e, k) * YValue(c, c.readCell(w, f, e, k), ys) == c.a(m, first + k) * c.b(n, first + k)
  }

  lemma OperandValues(c: Config, w: nat, reg: nat, f: nat, ys: seq<Slice>, e: nat, m: nat, n: nat, base: nat, off: nat, k: nat)
    requires OperandPair(c, w, reg, f, e, m, n, off, k)
    requires |ys| == c.cells && forall cell :: 0 <= cell < c.cells && c.Written(cell) ==> ys[cell] == From(base)
    ensures IsTerm(c, w, reg, From(base), f, ys, e, m, n, base + off, k)
  {
    assert base + (off + k) == base + off + k;
    assert XValue(c, w, reg, From(base), e, k) == c.a(m, base + off + k);
    assert YValue(c, c.readCell(w, f, e, k), ys) == c.b(n, base + off + k);
  }

  lemma {:induction false} SumExtends(c: Config, w: nat, reg: nat, x: Slice, f: nat, ys: seq<Slice>, e: nat, m: nat, n: nat,
                                      first: nat, len: nat)
    requires forall k :: 0 <= k < len ==> IsTerm(c, w, reg, x, f, ys, e, m, n, first, k)
    ensures Dot(c, m, n, first + len) == Dot(c, m, n, first) + MfmaSum(c, w, reg, x, f, ys, e, len)
  {
    if len > 0 {
      SumExtends(c, w, reg, x, f, ys, e, m, n, first, len - 1);
      assert IsTerm(c, w, reg, x, f, ys, e, m, n, first, len - 1);
      DotNext(c, m, n, first + (len - 1));
      assert first + (len - 1) + 1 == first + len;
    }
  }

  /** An mfma whose operands come from one tile extends the sum by its slice of k, because its register and the words
      its fragment was read from hold those very elements. */
  lemma MfmaExtends(c: Config, w: nat, reg: nat, f: nat, ys: seq<Slice>, e: nat, m: nat, n: nat, base: nat, off: nat)
    requires Operands(c, w, reg, f, e, m, n, off)
    requires |ys| == c.cells && forall cell :: 0 <= cell < c.cells && c.Written(cell) ==> ys[cell] == From(base)
    ensures Dot(c, m, n, base + off + c.kInst) == Dot(c, m, n, base + off) + MfmaSum(c, w, reg, From(base), f, ys, e, c.kInst)
  {
    var first := base + off;
    forall k | 0 <= k < c.kInst ensures IsTerm(c, w, reg, From(base), f, ys, e, m, n, first, k) {
      assert OperandPair(c, w, reg, f, e, m, n, off, k);
      OperandValues(c, w, reg, f, ys, e, m, n, base, off, k);
    }
    SumExtends(c, w, reg, From(base), f, ys, e, m, n, first, c.kInst);
  }

  /** Accumulator q, X register `reg` and fragment f belong together, for slice ik of the tile. */
  predicate Together(c: Config, q: nat, ik: nat, reg: nat, f: nat) {
    && c.kRepeat > 0 && c.yRepeat > 0 && q < c.Plane() && reg < c.order.nx && f < c.Frags()
    && reg / c.kRepeat == q / c.yRepeat && reg % c.kRepeat == ik
    && f % c.yRepeat == q % c.yRepeat && f / c.yRepeat == ik
  }

  /** Which ones product j works on. */
  lemma MultiplyEffect(c: Config, w: nat, v: Wave) returns (q: nat, ik: nat, reg: nat, f: nat)
    requires c.Valid() && Plan(c) && ShapeOf(c, v)
    requires v.stage.Mfma? && v.stage.j < c.Total() && v.round > 0 && c.Plane() > 0
    ensures q == v.stage.j % c.Plane() && ik == v.stage.j / c.Plane() && Together(c, q, ik, reg, f)
    ensures Multiply(c, w, v).acc == v.acc[q := Accumulate(c, w, v.acc[q], reg, v.xBuf[(v.round - 1) % 2][reg], f, v.yFrag[f])]
  {
    MfmaIndices(c, v.stage.j);
    q, ik := v.stage.j % c.Plane(), v.stage.j / c.Plane();
    reg, f := q / c.yRepeat * c.kRepeat + ik, ik * c.yRepeat + q % c.yRepeat;
    DivMod(q, c.yRepeat);
    DivModUnique(reg, c.kRepeat, q / c.yRepeat, ik);
    DivModUnique(f, c.yRepeat, ik, q % c.yRepeat);
  }

  lemma ProductExtends(c: Config, w: nat, q: nat, ik: nat, reg: nat, f: nat, ys: seq<Slice>, base: nat, acc: seq<int>, len: int)
    requires c.Valid() && c.Layout() && w < c.waves && Together(c, q, ik, reg, f)
    requires |ys| == c.cells && forall cell :: 0 <= cell < c.cells && c.Written(cell) ==> ys[cell] == From(base)
    requires Holds(c, w, q, acc, len) && len == base + ik * c.kInst
    ensures Holds(c, w, q, Accumulate(c, w, acc, reg, From(base), f, ys), len + c.kInst)
  {
    MulLe(0, ik, c.kInst);
    forall e | 0 <= e < c.elems
      ensures Accumulate(c, w, acc, reg, From(base), f, ys)[e]
           == Dot(c, c.xRow(w, q / c.yRepeat, e), c.yCol(w, q % c.yRepeat, e), len + c.kInst)
    {
      ValidOperands(c, w, reg, f, e);
      MfmaExtends(c, w, reg, f, ys, e, c.xRow(w, q / c.yRepeat, e), c.yCol(w, q % c.yRepeat, e), base, ik * c.kInst);
    }
  }

  lemma MultiplyAccumulator(c: Config, w: nat, v: Wave, q: nat, ik: nat, reg: nat, f: nat, len: int)
    requires c.Valid() && c.Layout() && w < c.waves && Plan(c) && ShapeOf(c, v) && LoadsInv(c, v) && FragsInv(c, v)
    requires v.stage.Mfma? && v.round > 0 && Together(c, q, ik, reg, f)
    requires Holds(c, w, q, v.acc[q], len) && len == c.order.Start(v.round - 1) + ik * c.kInst
    ensures Holds(c, w, q, Accumulate(c, w, v.acc[q], reg, v.xBuf[(v.round - 1) % 2][reg], f, v.yFrag[f]), len + c.kInst)
  {
    XOperand(c, v, reg);
    FragmentTile(c, v, f);
    ProductExtends(c, w, q, ik, reg, f, v.yFrag[f], c.order.Start(v.round - 1), v.acc[q], len);
  }

  lemma FragmentTile(c: Config, v: Wave, f: nat)
    requires ShapeOf(c, v) && FragsInv(c, v) && v.stage.Mfma? && v.round > 0 && f < c.Frags()
    ensures IsTile(c, v.yFrag[f], v.round - 1)
  {
  }

  lemma CurrentAccumulator(c: Config, w: nat, v: Wave, q: nat, len: int)
    requires ShapeOf(c, v) && c.yRepeat > 0 && c.Plane() > 0 && SumsInv(c, w, v)
    requires v.stage.Mfma? && v.round > 0 && q == v.stage.j % c.Plane()
    requires len == c.order.Start(v.round - 1) + v.stage.j / c.Plane() * c.kInst
    ensures q < c.Plane() && Holds(c, w, q, v.acc[q], len)
  {
    SlicesNext(c.Plane(), v.stage.j, q);
    assert Holds(c, w, q, v.acc[q], Covered(c, v, q));
  }

  lemma MultiplySums(c: Config, w: nat, v: Wave, v': Wave)
    requires c.Valid() && c.Layout() && w < c.waves && Plan(c) && ShapeOf(c, v) && LoadsInv(c, v) && FragsInv(c, v)
    requires v.stage.Mfma? && v.stage.j < c.Total() && v.round > 0
    requires c.Plane() > 0 && SumsInv(c, w, v) && v' == Multiply(c, w, v) && ShapeOf(c, v')
    ensures SumsInv(c, w, v')
  {
    var q, ik, reg, f := MultiplyEffect(c, w, v);
    MultiplyFrame(c, w, v);
    ExtendedSums(c, w, v, v', q, ik, reg, f);
  }

  lemma ExtendedSums(c: Config, w: nat, v: Wave, v': Wave, q: nat, ik: nat, reg: nat, f: nat)
    requires c.Valid() && c.Layout() && w < c.waves && Plan(c) && ShapeOf(c, v) && LoadsInv(c, v) && FragsInv(c, v)
    requires v.stage.Mfma? && v.round > 0 && c.Plane() > 0 && SumsInv(c, w, v) && ShapeOf(c, v')
    requires q == v.stage.j % c.Plane() && ik == v.stage.j / c.Plane() && Together(c, q, ik, reg, f)
    requires v'.round == v.round && v'.stage == Mfma(v.stage.j + 1)
    requires v'.acc == v.acc[q := Accumulate(c, w, v.acc[q], reg, v.xBuf[(v.round - 1) % 2][reg], f, v.yFrag[f])]
    ensures SumsInv(c, w, v')
  {
    var len := c.order.Start(v.round - 1) + ik * c.kInst;
    CurrentAccumulator(c, w, v, q, len);
    MultiplyAccumulator(c, w, v, q, ik, reg, f, len);
    OtherAccumulators(c, w, v, v', q, len);
  }

  lemma OtherAccumulators(c: Config, w: nat, v: Wave, v': Wave, q0: nat, len: int)
    requires ShapeOf(c, v) && ShapeOf(c, v') && c.yRepeat > 0 && c.Plane() > 0 && SumsInv(c, w, v)
    requires v.stage.Mfma? && v.round > 0 && v'.round == v.round && v'.stage == Mfma(v.stage.j + 1)
    requires q0 == v.stage.j % c.Plane() && q0 < c.Plane() && v'.acc == v.acc[q0 := v'.acc[q0]]
    requires len == c.order.Start(v.round - 1) + v.stage.j / c.Plane() * c.kInst
    requires Holds(c, w, q0, v'.acc[q0], len + c.kInst)
    ensures SumsInv(c, w, v')
  {
    Distribute(v.stage.j / c.Plane(), 1, c.kInst);
    forall q | 0 <= q < c.Plane() ensures Holds(c, w, q, v'.acc[q], Covered(c, v', q)) {
      SlicesNext(c.Plane(), v.stage.j, q);
      assert Holds(c, w, q, v.acc[q], Covered(c, v, q));
    }
  }

  lemma AdvanceSums(c: Config, w: nat, v: Wave)
    requires c.Valid() && c.Layout() && w < c.waves && Plan(c) && ShapeOf(c, v) && LoadsInv(c, v) && FragsInv(c, v) && Ready(c, v)
    requires c.Plane() > 0 && SumsInv(c, w, v) && ShapeOf(c, AdvanceWave(c, w, v))
    ensures SumsInv(c, w, AdvanceWave(c, w, v))
  {
    if v.stage.Mfma? && v.stage.j < c.Total() {
      MultiplySums(c, w, v, AdvanceWave(c, w, v));
    } else {
      OtherSums(c, w, v);
    }
  }

  lemma OtherSums(c: Config, w: nat, v: Wave)
    requires c.Valid() && Plan(c) && ShapeOf(c, v) && Ready(c, v)
    requires c.Plane() > 0 && SumsInv(c, w, v) && ShapeOf(c, AdvanceWave(c, w, v))
    requires v.stage.Mfma? ==> v.stage.j == c.Total()
    ensures SumsInv(c, w, AdvanceWave(c, w, v))
  {
    var v' := AdvanceWave(c, w, v);
    if v.stage.Mfma? { TileDone(c, v); }
    if v.stage == SldFence { TileBegun(c, v); }
    assert v'.acc == v.acc;
    assert forall q :: 0 <= q < c.Plane() ==> Covered(c, v', q) == Covered(c, v, q);
  }

  lemma TileDone(c: Config, v: Wave)
    requires c.Valid() && c.Plane() > 0 && v.round > 0 && v.stage == Mfma(c.Total())
    ensures forall q :: 0 <= q < c.Plane() ==> Covered(c, v, q) == c.order.Start(v.round)
  {
    DivModUnique(c.Total(), c.Plane(), c.kRepeat, 0);
  }

  lemma TileBegun(c: Config, v: Wave)
    requires c.Valid() && c.Plane() > 0 && v.stage == SldFence
    ensures forall q :: 0 <= q < c.Plane() ==> Covered(c, v.(stage := Mfma(0)), q) == Covered(c, v, q)
  {
    DivModUnique(0, c.Plane(), 0, 0);
  }
}
