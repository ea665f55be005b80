/** `gemm_pipeline_oneside_lds` with its `gemm_prio_fma` body, X_IS_M, two register buffers for X and unmasked
    loads: X goes from global memory straight to registers, Y through one LDS tile shared by the waves.

    Every wave runs the same program on its own registers; only barriers and the LDS tile connect them.
    Global loads retire in issue order, LDS accesses in any order, all of them at any time.
    A register or LDS vector is represented by the slice of K its contents were loaded from. */
module PipelineOneSide {
  import opened Arith
  import opened LoadOrder

  // ---------------------------------------------------------------- the calls of operator()

  /** One `gemm_` call: the X buffer it multiplies, the X buffer it loads, and whether it is a hot iteration. */
  datatype Call = Call(cur: nat, next: nat, hot: bool)

  /** The calls a run over `kIters` tiles needs: tile t from buffer t % 2 while loading tile t + 1. */
  predicate OneCallPerTile(calls: seq<Call>, kIters: nat) {
    && |calls| == kIters
    && forall t :: 0 <= t < kIters ==> calls[t] == Call(t % 2, (t + 1) % 2, t + 1 < kIters)
  }

  /** `is_applicable`. */
  predicate IsApplicable(kIterMod: nat, kIters: nat) {
    kIterMod == kIters % 2
  }

  /** The call sequence of the two specialised loops is the required one exactly when the specialisation is
      applicable and there is at least one tile. */
  method CallSequence(kIterMod: nat, kIters: nat) returns (calls: seq<Call>)
    requires kIterMod < 2
    ensures OneCallPerTile(calls, kIters) <==> IsApplicable(kIterMod, kIters) && kIters >= 1
  {
    calls := [];
    var i := if kIterMod == 0 then 2 else 1;
    while i < kIters
      invariant i % 2 == kIterMod % 2 && |calls| == i - (if kIterMod == 0 then 2 else 1)
      invariant i < kIters + 2 || calls == []
      invariant forall t :: 0 <= t < |calls| ==> calls[t] == Call(t % 2, (t + 1) % 2, true)
    {
      calls := calls + [Call(0, 1, true), Call(1, 0, true)];
      i := i + 2;
    }
    if kIterMod == 0 {
      calls := calls + [Call(0, 1, true), Call(1, 0, false)];
    } else {
      calls := calls + [Call(0, 1, false)];
    }
  }

  // ---------------------------------------------------------------- machine state

  /** Where a wave stands.
      Issue(r): r loads of this round issued.  SstFence: LDS stores must land.  AtBarrierA: tile complete.
      LdsRead: `load_all`.  XFence, SldFence: X loads and LDS reads must arrive.  Mfma(j): j products done.
      AtBarrierB: tile consumed.  YFence: Y loads must arrive.  Store: `sst_y`. */
  datatype Stage = Issue(r: nat) | SstFence | AtBarrierA | LdsRead | XFence | SldFence | Mfma(j: nat)
                 | AtBarrierB | YFence | Store | Done

  /** Round 0 is the prologue; round p > 0 is call p - 1, which multiplies tile p - 1 and loads tile p. */
  datatype Wave = Wave(round: nat, stage: Stage, queue: seq<Load>, xBase: nat, yBase: nat,
                       xBuf: seq<seq<Slice>>, yBuf: seq<Slice>, stores: map<nat, Slice>, fetching: seq<bool>,
                       yFrag: seq<seq<Slice>>, acc: seq<seq<int>>)

  datatype State = State(waves: seq<Wave>, lds: seq<Slice>)

  /** `waves` waves; `cells` words of LDS; `elems` elements per accumulator fragment.
      What the stores put where: `ownerWave` and `ownerIssue` name the wave and Y register that `sst_y` writes to a
      word (no wave for padding), and `cellCol` and `cellK` the column and the k within the tile of the value that
      this register was loaded with.  What the loads put in X registers: value y of register `reg` in a lane of wave
      w lies in row `regRow(w, lane, reg)` and at `regK(lane, reg, y)` in the tile.
      What the products take: the k-th operand of element e comes from LDS word `readCell(w, f, e, k)` of fragment f,
      and from value `xPlace(e, k)` of lane `xLane(e, k)`.
      What they are meant to be: element e of an accumulator of fragment row ix and column iy is the product of row
      `xRow(w, ix, e)` of `a` and row `yCol(w, iy, e)` of `b`. */
  datatype Config = Config(waves: nat, order: Order, xRepeat: nat, yRepeat: nat, kRepeat: nat, kInst: nat,
                           cells: nat, elems: nat, calls: seq<Call>,
                           ownerWave: nat -> nat, ownerIssue: nat -> nat, cellCol: nat -> nat, cellK: nat -> nat,
                           regRow: (nat, nat, nat) -> nat, regK: (nat, nat, nat) -> nat,
                           readCell: (nat, nat, nat, nat) -> nat, xLane: (nat, nat) -> nat, xPlace: (nat, nat) -> nat,
                           xRow: (nat, nat, nat) -> nat, yCol: (nat, nat, nat) -> nat,
                           a: (nat, nat) -> int, b: (nat, nat) -> int)
  {
    function Plane(): nat { xRepeat * yRepeat }

    function Frags(): nat { kRepeat * yRepeat }

    function Total(): nat { kRepeat * Plane() }

    ghost predicate Valid() {
      && waves > 0 && xRepeat > 0 && yRepeat > 0 && kRepeat > 0 && kInst > 0
      && order.nx == xRepeat * kRepeat && order.tile == kRepeat * kInst && order.ny > 0
      && |calls| >= 1 && OneCallPerTile(calls, |calls|)
      && (forall cell :: 0 <= cell < cells && ownerWave(cell) < waves ==> ownerIssue(cell) < order.ny)
    }

    /** Every operand is where the products take it from. */
    ghost predicate Layout()
      requires yRepeat > 0 && kRepeat > 0
    {
      && (forall w, f, e, k :: 0 <= w < waves && 0 <= f < Frags() && 0 <= e < elems && 0 <= k < kInst ==> ReadsOperand(w, f, e, k))
      && (forall w, reg, e, k :: 0 <= w < waves && 0 <= reg < order.nx && 0 <= e < elems && 0 <= k < kInst ==> HoldsOperand(w, reg, e, k))
    }

    /** A word that some store writes. */
    predicate Written(cell: nat) { cell < cells && ownerWave(cell) < waves }

    /** The word a fragment is read from holds the element that the product takes it for. */
    predicate ReadsOperand(w: nat, f: nat, e: nat, k: nat)
      requires yRepeat > 0
    {
      var cell := readCell(w, f, e, k);
      DivMod(f, yRepeat);
      && Written(cell) && cellCol(cell) == yCol(w, f % yRepeat, e) && cellK(cell) == f / yRepeat * kInst + k
    }

    /** So does the X register. */
    predicate HoldsOperand(w: nat, reg: nat, e: nat, k: nat)
      requires kRepeat > 0
    {
      var lane, y := xLane(e, k), xPlace(e, k);
      DivMod(reg, kRepeat);
      regRow(w, lane, reg) == xRow(w, reg / kRepeat, e) && regK(lane, reg, y) == reg % kRepeat * kInst + k
    }

    /** The prologue loads unconditionally into buffer 0; a call loads when it is hot. */
    predicate Loads(round: nat)
      requires round <= |calls|
    {
      round == 0 || calls[round - 1].hot
    }

    function NextBuf(round: nat): nat
      requires round <= |calls|
    {
      if round == 0 then 0 else calls[round - 1].next
    }

    /** `gld_fence(n)` before Y is stored, and before X is multiplied. */
    predicate YArrived(v: Wave) { |v.queue| <= if order.xFirst then 0 else order.nx }

    predicate XArrived(v: Wave)
      requires v.round <= |calls|
    {
      order.xFirst || |v.queue| <= if Loads(v.round) then order.nx + order.ny else 0
    }
  }

  // ---------------------------------------------------------------- steps

  /** Advance: the wave's next instruction.  Retire: its oldest global load completes.  Land: one of its LDS
      stores reaches the tile.  Arrive: one of its LDS reads returns.  Barrier: all waves leave. */
  datatype Step = Advance(w: nat) | Retire(w: nat) | Land(w: nat, i: nat) | Arrive(w: nat, f: nat) | Barrier

  predicate AtBarrier(v: Wave) { v.stage == AtBarrierA || v.stage == AtBarrierB }

  ghost predicate ShapeOf(c: Config, v: Wave) {
    && v.round <= |c.calls|
    && (v.stage.Issue? ==> v.stage.r <= c.order.T())
    && (v.stage.Mfma? ==> v.stage.j <= c.Total())
    && Sized(c.order, v.xBuf, v.yBuf)
    && |v.fetching| == |v.yFrag| == c.Frags() && (forall f :: 0 <= f < c.Frags() ==> |v.yFrag[f]| == c.cells)
    && |v.acc| == c.Plane() && (forall q :: 0 <= q < c.Plane() ==> |v.acc[q]| == c.elems)
    && (v.round == 0 ==> v.stage.Issue? || v.stage == YFence || v.stage == Store)
    && (v.round == |c.calls| ==> v.stage != AtBarrierB && v.stage != YFence && v.stage != Store)
    && (v.stage == Done ==> v.round == |c.calls|)
    && (v.stage.Issue? && v.round == |c.calls| ==> v.stage.r == 0)
  }

  ghost predicate Shape(c: Config, s: State) {
    && c.Valid()
    && |s.waves| == c.waves && |s.lds| == c.cells
    && forall w :: 0 <= w < c.waves ==> ShapeOf(c, s.waves[w])
  }

  /** Whether the next instruction of a wave, other than a barrier, can complete. */
  predicate Ready(c: Config, v: Wave)
    requires v.round <= |c.calls|
  {
    match v.stage
    case SstFence => v.stores == map[]
    case XFence => c.XArrived(v)
    case SldFence => true !in v.fetching
    case YFence => c.YArrived(v)
    case AtBarrierA | AtBarrierB | Done => false
    case _ => true
  }

  ghost predicate Enabled(c: Config, s: State, step: Step)
    requires Shape(c, s)
  {
    match step
    case Advance(w) => w < c.waves && Ready(c, s.waves[w])
    case Retire(w) => w < c.waves && s.waves[w].queue != []
    case Land(w, i) => w < c.waves && i in s.waves[w].stores
    case Arrive(w, f) => w < c.waves && f < c.Frags() && s.waves[w].fetching[f]
    case Barrier => forall w :: 0 <= w < c.waves ==> AtBarrier(s.waves[w])
  }

  /** The value of the k-th operand of element e in X register `reg` with contents `x`. */
  function XValue(c: Config, w: nat, reg: nat, x: Slice, e: nat, k: nat): int {
    match x
    case Blank => 0
    case From(base) => c.a(c.regRow(w, c.xLane(e, k), reg), base + c.regK(c.xLane(e, k), reg, c.xPlace(e, k)))
  }

  /** The value read from an LDS word; a word outside LDS reads as zero. */
  function YValue(c: Config, cell: nat, ys: seq<Slice>): int {
    if cell < |ys| && ys[cell].From? then c.b(c.cellCol(cell), ys[cell].base + c.cellK(cell)) else 0
  }

  /** What one mfma adds to element e: the products of its first `len` operand pairs. */
  function MfmaSum(c: Config, w: nat, reg: nat, x: Slice, f: nat, ys: seq<Slice>, e: nat, len: nat): int
  {
    if len == 0 then 0 else
      MfmaSum(c, w, reg, x, f, ys, e, len - 1)
      + XValue(c, w, reg, x, e, len - 1) * YValue(c, c.readCell(w, f, e, len - 1), ys)
  }

  function IssueLoad(c: Config, v: Wave): Wave
    requires v.round <= |c.calls| && v.stage.Issue? && v.stage.r < c.order.T()
  {
    var r := v.stage.r;
    var load := if c.order.IsX(r) then ToX(c.NextBuf(v.round), c.order.Reg(r), v.xBase) else ToY(c.order.Reg(r), v.yBase);
    v.(queue := v.queue + [load], stage := Issue(r + 1),
       xBase := if v.round == 0 && c.order.IsX(r) && c.order.Reg(r) + 1 == c.order.nx then v.xBase + c.order.tile else v.xBase,
       yBase := if v.round == 0 && !c.order.IsX(r) && c.order.Reg(r) + 1 == c.order.ny then v.yBase + c.order.tile else v.yBase)
  }

  /** One mfma into an accumulator fragment. */
  function Accumulate(c: Config, w: nat, acc: seq<int>, reg: nat, x: Slice, f: nat, ys: seq<Slice>): (r: seq<int>)
    requires |acc| == c.elems
    ensures |r| == c.elems
  {
    seq(c.elems, e requires 0 <= e < c.elems => acc[e] + MfmaSum(c, w, reg, x, f, ys, e, c.kInst))
  }

  /** Product j of a call. */
  function Multiply(c: Config, w: nat, v: Wave): Wave
    requires c.Valid() && ShapeOf(c, v) && v.round > 0 && v.stage.Mfma? && v.stage.j < c.Total()
    requires c.calls[v.round - 1].cur < 2
  {
    var j := v.stage.j;
    MfmaIndices(c, j);
    var ik, i2 := j / c.Plane(), j % c.Plane();
    var ix, iy := i2 / c.yRepeat, i2 % c.yRepeat;
    var reg, f, q := ix * c.kRepeat + ik, ik * c.yRepeat + iy, ix * c.yRepeat + iy;
    MultiplyInto(c, w, v, q, reg, f)
  }

  function MultiplyInto(c: Config, w: nat, v: Wave, q: nat, reg: nat, f: nat): Wave
    requires ShapeOf(c, v) && v.round > 0 && v.stage.Mfma? && c.calls[v.round - 1].cur < 2
    requires q < c.Plane() && reg < c.order.nx && f < c.Frags()
  {
    var x, ys := v.xBuf[c.calls[v.round - 1].cur][reg], v.yFrag[f];
    v.(stage := Mfma(v.stage.j + 1), acc := v.acc[q := Accumulate(c, w, v.acc[q], reg, x, f, ys)])
  }

  lemma MfmaIndices(c: Config, j: nat)
    requires c.xRepeat > 0 && c.yRepeat > 0 && c.order.nx == c.xRepeat * c.kRepeat && j < c.Total()
    ensures c.Plane() > 0 && 0 <= j / c.Plane() < c.kRepeat
    ensures var i2 := j % c.Plane(); 0 <= i2 / c.yRepeat < c.xRepeat && i2 / c.yRepeat * c.yRepeat + i2 % c.yRepeat == i2
    ensures 0 <= j % c.Plane() / c.yRepeat * c.kRepeat + j / c.Plane() < c.order.nx
    ensures 0 <= j / c.Plane() * c.yRepeat + j % c.Plane() % c.yRepeat < c.Frags()
  {
    var plane := c.Plane();
    MulLt(0, c.xRepeat, c.yRepeat);
    DivLt(j, plane, c.kRepeat);
    DivMod(j, plane);
    var i2 := j % plane;
    DivMod(i2, c.yRepeat);
    DivLt(i2, c.yRepeat, c.xRepeat);
    RowIndex(i2 / c.yRepeat, j / plane, c.xRepeat, c.kRepeat);
    RowIndex(j / plane, i2 % c.yRepeat, c.kRepeat, c.yRepeat);
  }

  function AdvanceWave(c: Config, w: nat, v: Wave): Wave
    requires c.Valid() && ShapeOf(c, v)
  {
    match v.stage
    case Issue(r) =>
      if c.Loads(v.round) && r < c.order.T() then IssueLoad(c, v)
      else v.(stage := if v.round == 0 then YFence else SstFence)
    case SstFence => v.(stage := AtBarrierA)
    case LdsRead => v.(stage := XFence, fetching := seq(c.Frags(), _ => true))
    case XFence => v.(stage := SldFence)
    case SldFence => v.(stage := Mfma(0))
    case Mfma(j) =>
      if j < c.Total() then Multiply(c, w, v)
      else if c.Loads(v.round) then v.(xBase := v.xBase + c.order.tile, yBase := v.yBase + c.order.tile, stage := AtBarrierB)
      else v.(stage := Done)
    case YFence => v.(stage := Store)
    case Store => v.(round := v.round + 1, stage := Issue(0), stores := map i: nat | i < c.order.ny :: v.yBuf[i])
    case _ => v
  }

  function RetireWave(v: Wave): Wave
    requires v.queue != [] && |v.xBuf| == 2
  {
    v.(queue := v.queue[1..], xBuf := Deliver(v.queue[0], v.xBuf), yBuf := DeliverY(v.queue[0], v.yBuf))
  }

  function PassBarrier(v: Wave): Wave {
    v.(stage := if v.stage == AtBarrierA then LdsRead else YFence)
  }

  function LandIn(c: Config, lds: seq<Slice>, w: nat, i: nat, value: Slice): seq<Slice>
  {
    seq(|lds|, cell requires 0 <= cell < |lds| =>
      if c.ownerWave(cell) == w && c.ownerIssue(cell) == i then value else lds[cell])
  }

  ghost function Apply(c: Config, s: State, step: Step): State
    requires Shape(c, s) && Enabled(c, s, step)
  {
    match step
    case Advance(w) => s.(waves := s.waves[w := AdvanceWave(c, w, s.waves[w])])
    case Retire(w) => s.(waves := s.waves[w := RetireWave(s.waves[w])])
    case Land(w, i) =>
      State(s.waves[w := s.waves[w].(stores := s.waves[w].stores - {i})],
            LandIn(c, s.lds, w, i, s.waves[w].stores[i]))
    case Arrive(w, f) =>
      s.(waves := s.waves[w := s.waves[w].(fetching := s.waves[w].fetching[f := false], yFrag := s.waves[w].yFrag[f := s.lds])])
    case Barrier => s.(waves := seq(c.waves, w requires 0 <= w < c.waves => PassBarrier(s.waves[w])))
  }

  /** Registers cleared, accumulators zero, LDS contents arbitrary. */
  ghost predicate Initial(c: Config, s: State) {
    && c.Valid() && c.Layout()
    && |s.waves| == c.waves && |s.lds| == c.cells
    && forall w :: 0 <= w < c.waves ==>
         var v := s.waves[w];
         && v.round == 0 && v.stage == Issue(0) && v.queue == [] && v.xBase == v.yBase == 0
         && Sized(c.order, v.xBuf, v.yBuf)
         && v.stores == map[] && v.fetching == seq(c.Frags(), _ => false)
         && |v.yFrag| == c.Frags() && (forall f :: 0 <= f < c.Frags() ==> |v.yFrag[f]| == c.cells)
         && |v.acc| == c.Plane()
         && forall q :: 0 <= q < c.Plane() ==> |v.acc[q]| == c.elems && forall e :: 0 <= e < c.elems ==> v.acc[q][e] == 0
  }
}
