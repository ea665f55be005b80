/** What the two modes of `simple_workgroup_reduce` share: the launch configuration, which lanes belong
    to which wave, and the per-thread arithmetic of the critical section. */
module WorkgroupKernel {
  import opened Arith
  import opened ReduceSpec

  /** `rows` reducing workgroups of `lanes` threads, in waves of `waveSize` threads. */
  datatype Config<!T> = Config(rows: nat, lanes: nat, waveSize: nat, add: (T, T) -> T, zero: T, input: seq<T>) {
    ghost predicate Valid() {
      lanes > 0 && waveSize > 0 && |input| == rows * lanes
    }

    function Waves(): (n: nat)
      requires lanes > 0 && waveSize > 0
      ensures n > 0
    {
      (lanes - 1) / waveSize + 1
    }

    function WaveOf(lane: nat): (w: nat)
      requires lane < lanes && waveSize > 0
      ensures w < Waves()
    {
      DivMod(lanes - 1, waveSize);
      Distribute((lanes - 1) / waveSize, 1, waveSize);
      DivLt(lane, waveSize, Waves());
      lane / waveSize
    }
  }

  /** `changed` on the lanes of wave `w`, `kept` elsewhere. */
  function Merge<T>(c: Config<T>, w: nat, changed: seq<T>, kept: seq<T>): (r: seq<T>)
    requires c.waveSize > 0 && |changed| == |kept| == c.lanes
  {
    seq(c.lanes, l requires 0 <= l < c.lanes => if c.WaveOf(l) == w then changed[l] else kept[l])
  }

  /** `i_data + o_data` for every thread of block `b`. */
  function Summed<T>(c: Config<T>, b: nat, reg: seq<T>): seq<T>
    requires |c.input| == c.rows * c.lanes && b < c.rows && |reg| == c.lanes
  {
    seq(c.lanes, l requires 0 <= l < c.lanes => c.add(At(c.input, c.rows, c.lanes, b, l), reg[l]))
  }

  /** Block b reads the b-th consecutive slice of `lanes` elements, each thread its own, on the left of the add. */
  lemma SummedSlice<T>(c: Config<T>, b: nat, reg: seq<T>, l: nat)
    requires |c.input| == c.rows * c.lanes && b < c.rows && |reg| == c.lanes && l < c.lanes
    ensures 0 <= b * c.lanes && b * c.lanes + c.lanes <= |c.input|
    ensures Summed(c, b, reg)[l] == c.add(c.input[b * c.lanes..b * c.lanes + c.lanes][l], reg[l])
  {
    MulLe(0, b, c.lanes);
    MulLe(b + 1, c.rows, c.lanes);
    Distribute(b, 1, c.lanes);
    RowIndex(b, l, c.rows, c.lanes);
    var from := b * c.lanes;
    assert At(c.input, c.rows, c.lanes, b, l) == c.input[from..from + c.lanes][l];
    assert Summed(c, b, reg)[l] == c.add(At(c.input, c.rows, c.lanes, b, l), reg[l]);
  }

  // ---------------------------------------------------------------- program counters

  /** Where a wave stands.
      Wait: thread 0 reads the counter, or tries to take the lock.  AtEntry: at the barrier after that.
      Load, Store: before the load and before the store of the critical section.
      Signal: thread 0 before it advances the counter, or gives the lock up.  AtExit: at the barrier before or after that. */
  datatype Pc = Wait | AtEntry | Load | Store | AtExit | Signal | Done

  /** Only thread 0 executes the waiting loop; the other waves go straight to the barrier. */
  function StartPc(wave: nat): Pc {
    if wave == 0 then Wait else AtEntry
  }

  predicate AtBarrier(pc: Pc) {
    pc == AtEntry || pc == AtExit
  }

  /** `s_barrier` carries no label: it opens once every wave of the workgroup that has not ended waits
      at some barrier. */
  ghost predicate BarrierOpen(pcs: seq<Pc>) {
    && (forall w :: 0 <= w < |pcs| ==> AtBarrier(pcs[w]) || pcs[w] == Done)
    && (exists w :: 0 <= w < |pcs| && AtBarrier(pcs[w]))
  }

  // ---------------------------------------------------------------- work left

  /** The work left in the waves of one workgroup, and of all, by a rank of program counters. */
  function WaveRanks(rank: Pc -> nat, pcs: seq<Pc>): nat {
    if pcs == [] then 0 else WaveRanks(rank, pcs[..|pcs| - 1]) + rank(pcs[|pcs| - 1])
  }

  function BlockRanks(rank: Pc -> nat, pc: seq<seq<Pc>>): nat {
    if pc == [] then 0 else BlockRanks(rank, pc[..|pc| - 1]) + WaveRanks(rank, pc[|pc| - 1])
  }

  lemma {:induction false} WaveRanksDrop(rank: Pc -> nat, p: seq<Pc>, q: seq<Pc>)
    requires |p| == |q| && forall w :: 0 <= w < |p| ==> rank(q[w]) <= rank(p[w])
    ensures WaveRanks(rank, q) <= WaveRanks(rank, p)
    ensures (exists w :: 0 <= w < |p| && rank(q[w]) < rank(p[w])) ==> WaveRanks(rank, q) < WaveRanks(rank, p)
  {
    if p != [] {
      WaveRanksDrop(rank, p[..|p| - 1], q[..|q| - 1]);
    }
  }

  lemma {:induction false} BlockRanksDrop(rank: Pc -> nat, p: seq<seq<Pc>>, b: nat, pcs: seq<Pc>)
    requires b < |p| && WaveRanks(rank, pcs) < WaveRanks(rank, p[b])
    ensures BlockRanks(rank, p[b := pcs]) < BlockRanks(rank, p)
  {
    var last := |p| - 1;
    if b == last {
      assert p[b := pcs][..last] == p[..last];
    } else {
      BlockRanksDrop(rank, p[..last], b, pcs);
      assert p[b := pcs][..last] == p[..last][b := pcs];
    }
  }

  /** A step of block b lowers some wave's rank and raises none. */
  lemma StepLowers(rank: Pc -> nat, p: seq<seq<Pc>>, b: nat, pcs: seq<Pc>, w: nat)
    requires b < |p| && |pcs| == |p[b]| && w < |pcs| && rank(pcs[w]) < rank(p[b][w])
    requires forall v :: 0 <= v < |pcs| ==> rank(pcs[v]) <= rank(p[b][v])
    ensures BlockRanks(rank, p[b := pcs]) < BlockRanks(rank, p)
  {
    WaveRanksDrop(rank, p[b], pcs);
    BlockRanksDrop(rank, p, b, pcs);
  }
}
