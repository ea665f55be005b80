/** `gemm_pipeline_flat` with its `gemm_prio_fma` body at wave granularity: every wave runs the program on its own
    registers, global loads retire in issue order, and LDS stores and reads take effect one by one at any time.
    Only the barriers keep one wave's stores from another's reads. */
module FlatWaves {
  import opened Arith
  import opened LoadOrder
  import opened PipelineFlat

  /** `c` says what the loads, stores and products are; M_REPEAT and N_REPEAT split its fragments; `calls` is the
      number of `gemm_` calls; output element e is accumulated by wave `waveOf(e)`. */
  datatype Machine = Machine(c: Config, mRepeat: nat, nRepeat: nat, calls: nat, waveOf: nat -> nat)
  {
    ghost predicate Valid() {
      && c.Valid() && c.a.issues > 0 && c.b.issues > 0 && c.kRepeat > 0 && mRepeat > 0 && nRepeat > 0 && c.plane == mRepeat * nRepeat
      && calls >= 1 && Start(calls) >= c.K()
      && forall e :: 0 <= e < c.elems ==> waveOf(e) < c.waves
    }

    /** The first k of tile t. */
    function Start(t: nat): nat { if t == 0 then 0 else Start(t - 1) + c.tile }

    function FragsA(): nat { MulLe(0, c.kRepeat, mRepeat); c.kRepeat * mRepeat }
    function FragsB(): nat { MulLe(0, c.kRepeat, nRepeat); c.kRepeat * nRepeat }
    function Total(): nat { MulLe(0, c.kRepeat, c.plane); c.kRepeat * c.plane }

    /** Round p loads tile p while there is one to come. */
    predicate Hot(round: nat) { round < calls }

    /** The side and register of the r-th load of a tile. */
    predicate IsA(r: nat) { if c.aFirst then r < c.a.issues else c.b.issues <= r }

    function Reg(r: nat): nat {
      if c.aFirst then (if r < c.a.issues then r else r - c.a.issues) else (if r < c.b.issues then r else r - c.b.issues)
    }

    /** How many loads the first fence may leave: those of the side stored second. */
    function SecondLoads(): nat { c.Side(!c.aFirst).issues }
  }

  /** A store under way: its side and register. */
  datatype Key = Key(isA: bool, i: nat)

  /** Where a wave stands.  Issue(r): r loads of this round issued.  SstFence: LDS stores must land.  AtBarrierA: tiles
      complete.  LdsRead: both `load_all`.  SldFence: LDS reads must arrive.  Mfma(j): j products done.  AtBarrierB:
      tiles consumed.  FirstFence to SecondStore: the loads of each side must arrive before it is stored. */
  datatype Stage = Issue(r: nat) | SstFence | AtBarrierA | LdsRead | SldFence | Mfma(j: nat) | AtBarrierB
                 | FirstFence | FirstStore | SecondFence | SecondStore | Done

  /** Round 0 is the prologue; round p > 0 is call p - 1, which multiplies tile p - 1 and loads tile p. */
  datatype Wave = Wave(round: nat, stage: Stage, queue: seq<Fetch>, aBase: nat, bBase: nat,
                       aBuf: seq<Slice>, bBuf: seq<Slice>, stores: map<Key, seq<Slice>>,
                       fetchA: seq<bool>, fetchB: seq<bool>, fragA: seq<seq<Slice>>, fragB: seq<seq<Slice>>, acc: seq<int>)

  datatype State = State(waves: seq<Wave>, ldsA: seq<Slice>, ldsB: seq<Slice>)

  datatype Step = Advance(w: nat) | Retire(w: nat) | Land(w: nat, key: Key) | Arrive(w: nat, isA: bool, f: nat) | Barrier

  predicate AtBarrier(v: Wave) { v.stage == AtBarrierA || v.stage == AtBarrierB }

  /** The tiles of the round have been multiplied. */
  predicate Consumed(stage: Stage) {
    stage == AtBarrierB || stage == FirstFence || stage == FirstStore || stage == SecondFence || stage == SecondStore
  }

  ghost predicate ShapeOf(g: Machine, v: Wave) {
    && v.round <= g.calls
    && (v.stage.Issue? ==> v.stage.r <= g.c.T())
    && (v.stage.Mfma? ==> v.stage.j <= g.Total())
    && |v.aBuf| == g.c.a.cells && |v.bBuf| == g.c.b.cells
    && (forall key :: key in v.stores ==> |v.stores[key]| == g.c.Side(key.isA).cells)
    && |v.fetchA| == |v.fragA| == g.FragsA() && |v.fetchB| == |v.fragB| == g.FragsB()
    && (forall f :: 0 <= f < g.FragsA() ==> |v.fragA[f]| == g.c.a.cells)
    && (forall f :: 0 <= f < g.FragsB() ==> |v.fragB[f]| == g.c.b.cells)
    && |v.acc| == g.c.elems
    && (v.round == 0 ==> v.stage.Issue? || (Consumed(v.stage) && v.stage != AtBarrierB))
    && (v.round == g.calls ==> !Consumed(v.stage))
    && (v.stage == Done ==> v.round == g.calls)
    && (v.stage.Issue? && v.round == g.calls ==> v.stage.r == 0)
    && (forall j :: 0 <= j < |v.queue| ==> |v.queue[j].mask| == g.c.Side(v.queue[j].isA).cells)
  }

  ghost predicate Shape(g: Machine, s: State) {
    && g.Valid()
    && |s.waves| == g.c.waves && |s.ldsA| == g.c.a.cells && |s.ldsB| == g.c.b.cells
    && forall w :: 0 <= w < g.c.waves ==> ShapeOf(g, s.waves[w])
  }

  /** Whether the next instruction of a wave, other than a barrier, can complete. */
  predicate Ready(g: Machine, v: Wave) {
    match v.stage
    case SstFence => v.stores == map[]
    case SldFence => true !in v.fetchA && true !in v.fetchB
    case FirstFence => |v.queue| <= g.SecondLoads()
    case SecondFence => v.queue == []
    case AtBarrierA | AtBarrierB | Done => false
    case _ => true
  }

  ghost predicate Enabled(g: Machine, s: State, step: Step)
    requires Shape(g, s)
  {
    match step
    case Advance(w) => w < g.c.waves && Ready(g, s.waves[w])
    case Retire(w) => w < g.c.waves && s.waves[w].queue != []
    case Land(w, key) => w < g.c.waves && key in s.waves[w].stores
    case Arrive(w, isA, f) =>
      w < g.c.waves && if isA then f < g.FragsA() && s.waves[w].fetchA[f] else f < g.FragsB() && s.waves[w].fetchB[f]
    case Barrier => forall w :: 0 <= w < g.c.waves ==> AtBarrier(s.waves[w])
  }

  /** The flags of `gld_iterator_s_r`, as `GldIterator` keeps them. */
  function Mask(l: Layout, base: nat): seq<bool> {
    seq(l.cells, cell requires 0 <= cell => l.Enabled(cell, base))
  }

  /** The prologue moves each side's window after its own loads. */
  function IssueLoad(g: Machine, v: Wave): Wave
    requires v.stage.Issue? && v.stage.r < g.c.T()
  {
    var r := v.stage.r;
    var isA, i := g.IsA(r), g.Reg(r);
    var base := if isA then v.aBase else v.bBase;
    var last := v.round == 0 && i + 1 == g.c.Side(isA).issues;
    v.(queue := v.queue + [Fetch(isA, i, base, Mask(g.c.Side(isA), base))], stage := Issue(r + 1),
       aBase := if last && isA then v.aBase + g.c.tile else v.aBase,
       bBase := if last && !isA then v.bBase + g.c.tile else v.bBase)
  }

  function RetireWave(g: Machine, w: nat, v: Wave): Wave
    requires ShapeOf(g, v) && v.queue != []
  {
    var load := v.queue[0];
    if load.isA then v.(queue := v.queue[1..], aBuf := Filled(g.c.a, v.aBuf, w, load))
    else v.(queue := v.queue[1..], bBuf := Filled(g.c.b, v.bBuf, w, load))
  }

  /** The products of columns first .. first + len - 1. */
  function SliceSum(c: Config, a: seq<Slice>, b: seq<Slice>, e: nat, first: nat, len: nat): int
    requires c.Valid() && |a| == c.a.cells && |b| == c.b.cells && e < c.elems && first + len <= c.tile
  {
    if len == 0 then 0 else SliceSum(c, a, b, e, first, len - 1) + Term(c, a, b, e, first + len - 1)
  }

  lemma MfmaIndices(g: Machine, j: nat)
    requires g.Valid() && j < g.Total()
    ensures var ik, q := j / g.c.plane, j % g.c.plane;
      && 0 <= ik < g.c.kRepeat && 0 <= ik * g.c.kInst && ik * g.c.kInst + g.c.kInst <= g.c.tile
      && 0 <= q / g.nRepeat < g.mRepeat && q % g.nRepeat < g.nRepeat
      && 0 <= ik * g.mRepeat + q / g.nRepeat < g.FragsA() && 0 <= ik * g.nRepeat + q % g.nRepeat < g.FragsB()
  {
    var ik, q := j / g.c.plane, j % g.c.plane;
    DivMod(j, g.c.plane);
    DivLt(j, g.c.plane, g.c.kRepeat);
    DivMod(q, g.nRepeat);
    DivLt(q, g.nRepeat, g.mRepeat);
    RowIndex(ik, q / g.nRepeat, g.c.kRepeat, g.mRepeat);
    RowIndex(ik, q % g.nRepeat, g.c.kRepeat, g.nRepeat);
    MulLe(0, ik, g.c.kInst);
    Distribute(ik, 1, g.c.kInst);
    MulLe(ik + 1, g.c.kRepeat, g.c.kInst);
  }

  /** One mfma: the wave's elements of fragment q take in a slice of the tile. */
  function Accumulate(g: Machine, w: nat, acc: seq<int>, q: nat, a: seq<Slice>, b: seq<Slice>, first: nat): seq<int>
    requires g.c.Valid() && |acc| == g.c.elems && |a| == g.c.a.cells && |b| == g.c.b.cells && first + g.c.kInst <= g.c.tile
  {
    seq(g.c.elems, e requires 0 <= e < g.c.elems =>
      if g.waveOf(e) == w && g.c.frag(e) == q then acc[e] + SliceSum(g.c, a, b, e, first, g.c.kInst) else acc[e])
  }

  /** Product j of a call. */
  function Multiply(g: Machine, w: nat, v: Wave): Wave
    requires g.Valid() && ShapeOf(g, v) && v.stage.Mfma? && v.stage.j < g.Total()
  {
    var j := v.stage.j;
    MultiplyInto(g, w, v, j % g.c.plane, FirstColumn(g, j), OperandA(g, j), OperandB(g, j))
  }

  /** The first tile column of product j, and the fragments it reads. */
  function FirstColumn(g: Machine, j: nat): (first: nat)
    requires g.Valid() && j < g.Total()
    ensures first + g.c.kInst <= g.c.tile
  {
    MfmaIndices(g, j);
    j / g.c.plane * g.c.kInst
  }

  function OperandA(g: Machine, j: nat): (f: nat)
    requires g.Valid() && j < g.Total()
    ensures f < g.FragsA()
  {
    MfmaIndices(g, j);
    j / g.c.plane * g.mRepeat + j % g.c.plane / g.nRepeat
  }

  function OperandB(g: Machine, j: nat): (f: nat)
    requires g.Valid() && j < g.Total()
    ensures f < g.FragsB()
  {
    MfmaIndices(g, j);
    j / g.c.plane * g.nRepeat + j % g.c.plane % g.nRepeat
  }

  function MultiplyInto(g: Machine, w: nat, v: Wave, q: nat, first: nat, fA: nat, fB: nat): Wave
    requires g.c.Valid() && ShapeOf(g, v) && v.stage.Mfma? && fA < g.FragsA() && fB < g.FragsB() && first + g.c.kInst <= g.c.tile
  {
    v.(stage := Mfma(v.stage.j + 1), acc := Accumulate(g, w, v.acc, q, v.fragA[fA], v.fragB[fB], first))
  }

  function SideStores(g: Machine, isA: bool, buf: seq<Slice>): map<Key, seq<Slice>> {
    map i: nat | i < g.c.Side(isA).issues :: Key(isA, i) := buf
  }

  function Buf(v: Wave, isA: bool): seq<Slice> { if isA then v.aBuf else v.bBuf }

  /** GLD_BUF_CLEAR, and on to the next round. */
  function NextRound(g: Machine, v: Wave): Wave {
    var stored := v.(stores := v.stores + SideStores(g, !g.c.aFirst, Buf(v, !g.c.aFirst)), round := v.round + 1, stage := Issue(0));
    if g.c.clearB then stored.(bBuf := seq(|v.bBuf|, _ => Blank)) else stored.(aBuf := seq(|v.aBuf|, _ => Blank))
  }

  function AdvanceWave(g: Machine, w: nat, v: Wave): Wave
    requires g.Valid() && ShapeOf(g, v)
  {
    match v.stage
    case Issue(r) =>
      if g.Hot(v.round) && r < g.c.T() then IssueLoad(g, v)
      else v.(stage := if v.round == 0 then FirstFence else SstFence)
    case SstFence => v.(stage := AtBarrierA)
    case LdsRead => v.(stage := SldFence, fetchA := seq(g.FragsA(), _ => true), fetchB := seq(g.FragsB(), _ => true))
    case SldFence => v.(stage := Mfma(0))
    case Mfma(j) =>
      if j < g.Total() then Multiply(g, w, v)
      else if g.Hot(v.round) then v.(aBase := v.aBase + g.c.tile, bBase := v.bBase + g.c.tile, stage := AtBarrierB)
      else v.(stage := Done)
    case FirstFence => v.(stage := FirstStore)
    case FirstStore => v.(stage := SecondFence, stores := SideStores(g, g.c.aFirst, Buf(v, g.c.aFirst)))
    case SecondFence => v.(stage := SecondStore)
    case SecondStore => NextRound(g, v)
    case _ => v
  }

  function PassBarrier(v: Wave): Wave {
    v.(stage := if v.stage == AtBarrierA then LdsRead else FirstFence)
  }

  function LandIn(l: Layout, lds: seq<Slice>, w: nat, i: nat, snapshot: seq<Slice>): seq<Slice>
    requires |snapshot| == |lds|
  {
    seq(|lds|, cell requires 0 <= cell < |lds| => if l.wave(cell) == w && l.issue(cell) == i then snapshot[cell] else lds[cell])
  }

  function ArriveWave(v: Wave, isA: bool, f: nat, lds: seq<Slice>): Wave
    requires if isA then f < |v.fetchA| == |v.fragA| else f < |v.fetchB| == |v.fragB|
  {
    if isA then v.(fetchA := v.fetchA[f := false], fragA := v.fragA[f := lds])
    else v.(fetchB := v.fetchB[f := false], fragB := v.fragB[f := lds])
  }

  ghost function Apply(g: Machine, s: State, step: Step): State
    requires Shape(g, s) && Enabled(g, s, step)
  {
    match step
    case Advance(w) => s.(waves := s.waves[w := AdvanceWave(g, w, s.waves[w])])
    case Retire(w) => s.(waves := s.waves[w := RetireWave(g, w, s.waves[w])])
    case Land(w, key) =>
      var v := s.waves[w];
      var waves := s.waves[w := v.(stores := v.stores - {key})];
      if key.isA then State(waves, LandIn(g.c.a, s.ldsA, w, key.i, v.stores[key]), s.ldsB)
      else State(waves, s.ldsA, LandIn(g.c.b, s.ldsB, w, key.i, v.stores[key]))
    case Arrive(w, isA, f) =>
      s.(waves := s.waves[w := ArriveWave(s.waves[w], isA, f, if isA then s.ldsA else s.ldsB)])
    case Barrier => s.(waves := seq(g.c.waves, w requires 0 <= w < g.c.waves => PassBarrier(s.waves[w])))
  }

  /** Registers cleared, accumulators zero, LDS contents arbitrary. */
  ghost predicate Initial(g: Machine, s: State) {
    && Shape(g, s)
    && forall w :: 0 <= w < g.c.waves ==>
         var v := s.waves[w];
         && v.round == 0 && v.stage == Issue(0) && v.queue == [] && v.aBase == v.bBase == 0
         && v.aBuf == seq(g.c.a.cells, _ => Blank) && v.bBuf == seq(g.c.b.cells, _ => Blank)
         && v.stores == map[] && true !in v.fetchA && true !in v.fetchB
         && v.acc == seq(g.c.elems, _ => 0)
  }
}
