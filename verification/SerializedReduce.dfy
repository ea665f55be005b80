/** `simple_workgroup_reduce<true>`: workgroups take turns through a ticket counter, and one extra
    workgroup copies the result out at the end.

    The kernel is a transition system at wave granularity.  A run is a list of steps, each performed by
    one workgroup or one of its waves, in any interleaving. */
module SerializedReduce {
  import opened ReduceSpec
  import opened WorkgroupKernel

  const COUNTER_RANGE := 0x1_0000_0000

  /** The grid of `rows + 1` workgroups has to fit the kernel's 32-bit block index. */
  ghost predicate Launchable<T>(c: Config<T>) {
    c.Valid() && c.rows + 1 < COUNTER_RANGE
  }

  /** The sum a lane holds after the first `count` rows. */
  function Sum<T>(c: Config<T>, count: nat, lane: nat): T
    requires |c.input| == c.rows * c.lanes && count <= c.rows && lane < c.lanes
  {
    OrderFold(c.add, c.zero, c.input, c.rows, c.lanes, Ascending(count), lane)
  }

  /** Shared memory, the program counter of every wave and the `o_data` register of every thread. */
  datatype State<!T> = State(cnt: nat, out: seq<T>, aux: seq<T>, pc: seq<seq<Pc>>, reg: seq<seq<T>>)

  datatype Step = Poll(block: nat) | Barrier(block: nat) | LoadOut(block: nat, wave: nat)
                | StoreOut(block: nat, wave: nat) | AddOne(block: nat)

  function Init<T>(c: Config<T>, aux: seq<T>): State<T>
    requires c.lanes > 0 && c.waveSize > 0
  {
    State(0, seq(c.lanes, _ => c.zero), aux,
          seq(c.rows + 1, _ => seq(c.Waves(), w requires w >= 0 => StartPc(w))),
          seq(c.rows + 1, _ => seq(c.lanes, _ => c.zero)))
  }

  ghost predicate Shape<T>(c: Config<T>, s: State<T>) {
    && Launchable(c)
    && |s.out| == |s.aux| == c.lanes
    && |s.pc| == |s.reg| == c.rows + 1
    && (forall b :: 0 <= b <= c.rows ==> |s.pc[b]| == c.Waves())
    && (forall b :: 0 <= b <= c.rows ==> |s.reg[b]| == c.lanes)
  }

  function PastBarrier(pc: Pc, wave: nat): Pc {
    match pc
    case AtEntry => Load
    case AtExit => if wave == 0 then Signal else Done
    case _ => pc
  }

  ghost predicate Enabled<T>(c: Config<T>, s: State<T>, step: Step)
    requires Shape(c, s)
  {
    && step.block <= c.rows
    && match step
       case Poll(b) => s.pc[b][0] == Wait
       case Barrier(b) => BarrierOpen(s.pc[b])
       case LoadOut(b, w) => w < c.Waves() && s.pc[b][w] == Load
       case StoreOut(b, w) => w < c.Waves() && s.pc[b][w] == Store
       case AddOne(b) => s.pc[b][0] == Signal
  }

  /** A poll that reads any other value changes nothing. */
  ghost predicate IsSpin<T>(s: State<T>, step: Step) {
    step.Poll? && s.cnt != step.block
  }

  function SetPc<T>(s: State<T>, b: nat, w: nat, pc: Pc): State<T>
    requires b < |s.pc| && w < |s.pc[b]|
  {
    s.(pc := s.pc[b := s.pc[b][w := pc]])
  }

  ghost function Apply<T>(c: Config<T>, s: State<T>, step: Step): (s': State<T>)
    requires Shape(c, s) && Enabled(c, s, step)
    ensures Shape(c, s')
  {
    match step
    case Poll(b) => if s.cnt == b then SetPc(s, b, 0, AtEntry) else s
    case Barrier(b) => s.(pc := s.pc[b := OpenBarrier(s.pc[b])])
    case LoadOut(b, w) => SetPc(s, b, w, Store).(reg := s.reg[b := Merge(c, w, s.out, s.reg[b])])
    case StoreOut(b, w) =>
      if b < c.rows then
        SetPc(s, b, w, AtExit).(out := Merge(c, w, Summed(c, b, s.reg[b]), s.out))
      else
        SetPc(s, b, w, Done).(aux := Merge(c, w, s.reg[b], s.aux))
    case AddOne(b) => SetPc(s, b, 0, Done).(cnt := (s.cnt + 1) % COUNTER_RANGE)
  }

  function OpenBarrier(pcs: seq<Pc>): seq<Pc> {
    seq(|pcs|, w requires 0 <= w < |pcs| => PastBarrier(pcs[w], w))
  }

  // ---------------------------------------------------------------- invariant

  predicate Inside(pc: Pc) {
    pc == Load || pc == Store || pc == AtExit
  }

  ghost predicate Waiting(pcs: seq<Pc>) {
    forall w :: 0 <= w < |pcs| ==> pcs[w] == StartPc(w)
  }

  ghost predicate Entered(pcs: seq<Pc>) {
    forall w :: 0 <= w < |pcs| ==> pcs[w] == AtEntry
  }

  ghost predicate AllInside(pcs: seq<Pc>) {
    forall w :: 0 <= w < |pcs| ==> Inside(pcs[w])
  }

  ghost predicate Leaving(pcs: seq<Pc>) {
    forall w :: 0 <= w < |pcs| ==> pcs[w] == if w == 0 then Signal else Done
  }

  ghost predicate AllDone(pcs: seq<Pc>) {
    forall w :: 0 <= w < |pcs| ==> pcs[w] == Done
  }

  ghost predicate Copying(pcs: seq<Pc>) {
    forall w :: 0 <= w < |pcs| ==> pcs[w] == Load || pcs[w] == Store || pcs[w] == Done
  }

  /** Blocks before the counter are done, blocks after it wait; the counter's own block is in progress. */
  ghost predicate Turns<T>(c: Config<T>, s: State<T>)
    requires Shape(c, s)
  {
    && s.cnt <= c.rows
    && (forall b :: 0 <= b < s.cnt ==> AllDone(s.pc[b]))
    && (forall b :: s.cnt < b <= c.rows ==> Waiting(s.pc[b]))
    && (s.cnt < c.rows ==>
          || Waiting(s.pc[s.cnt]) || Entered(s.pc[s.cnt]) || AllInside(s.pc[s.cnt]) || Leaving(s.pc[s.cnt]))
    && (s.cnt == c.rows ==> Waiting(s.pc[c.rows]) || Entered(s.pc[c.rows]) || Copying(s.pc[c.rows]))
  }

  predicate Stored(pc: Pc) {
    pc == AtExit || pc == Signal || pc == Done
  }

  /** How many rows lane `l` of the output holds: one more than the counter while the counter's block
      has stored this lane and not yet incremented. */
  function RowsIn<T>(c: Config<T>, s: State<T>, l: nat): (n: nat)
    requires c.lanes > 0 && c.waveSize > 0 && l < c.lanes && s.cnt <= c.rows
    requires |s.pc| == c.rows + 1 && |s.pc[s.cnt]| == c.Waves()
    ensures n <= c.rows
  {
    if s.cnt < c.rows && Stored(s.pc[s.cnt][c.WaveOf(l)]) then s.cnt + 1 else s.cnt
  }

  ghost predicate LaneOk<T>(c: Config<T>, s: State<T>, l: nat)
    requires Shape(c, s) && s.cnt <= c.rows && l < c.lanes
  {
    && s.out[l] == Sum(c, RowsIn(c, s, l), l)
    && (s.pc[s.cnt][c.WaveOf(l)] == Store ==> s.reg[s.cnt][l] == s.out[l])
    && (s.pc[c.rows][c.WaveOf(l)] == Done ==> s.aux[l] == s.out[l])
  }

  ghost predicate Inv<T>(c: Config<T>, s: State<T>) {
    && Shape(c, s)
    && Turns(c, s)
    && forall l :: 0 <= l < c.lanes ==> LaneOk(c, s, l)
  }

  lemma InitInv<T>(c: Config<T>, aux: seq<T>)
    requires Launchable(c) && |aux| == c.lanes
    ensures Inv(c, Init(c, aux))
  {
    var s := Init(c, aux);
    assert forall b :: 0 <= b <= c.rows ==> Waiting(s.pc[b]);
  }

  lemma BlockInTurn<T>(c: Config<T>, s: State<T>, step: Step)
    requires Inv(c, s) && Enabled(c, s, step)
    ensures !IsSpin(s, step) ==> step.block == s.cnt
  {
    var b := step.block;
    if b < s.cnt {
      assert AllDone(s.pc[b]);
    } else if b > s.cnt {
      assert Waiting(s.pc[b]);
      assert s.pc[b][0] == Wait;
    }
  }

  lemma PollInv<T>(c: Config<T>, s: State<T>, b: nat)
    requires Inv(c, s) && Enabled(c, s, Poll(b))
    ensures Inv(c, Apply(c, s, Poll(b)))
  {
    var s' := Apply(c, s, Poll(b));
    if s.cnt == b {
      assert Waiting(s.pc[b]);
      assert Entered(s'.pc[b]);
      forall l | 0 <= l < c.lanes ensures LaneOk(c, s', l) {
        assert LaneOk(c, s, l);
      }
    }
  }

  lemma BarrierInv<T>(c: Config<T>, s: State<T>, b: nat)
    requires Inv(c, s) && Enabled(c, s, Barrier(b))
    ensures Inv(c, Apply(c, s, Barrier(b)))
  {
    BlockInTurn(c, s, Barrier(b));
    var s' := Apply(c, s, Barrier(b));
    var w :| 0 <= w < |s.pc[b]| && AtBarrier(s.pc[b][w]);
    assert !Waiting(s.pc[b]) by { assert AtBarrier(s.pc[b][0]) || s.pc[b][0] == Done; }
    if Entered(s.pc[b]) {
      assert if b < c.rows then AllInside(s'.pc[b]) else Copying(s'.pc[b]);
    } else {
      assert b < c.rows && AllInside(s.pc[b]);
      assert Leaving(s'.pc[b]);
    }
    forall l | 0 <= l < c.lanes ensures LaneOk(c, s', l) {
      assert LaneOk(c, s, l);
    }
  }

  lemma LoadInv<T>(c: Config<T>, s: State<T>, b: nat, w: nat)
    requires Inv(c, s) && Enabled(c, s, LoadOut(b, w))
    ensures Inv(c, Apply(c, s, LoadOut(b, w)))
  {
    BlockInTurn(c, s, LoadOut(b, w));
    var s' := Apply(c, s, LoadOut(b, w));
    if b < c.rows {
      assert AllInside(s.pc[b]) && AllInside(s'.pc[b]);
    } else {
      assert Copying(s.pc[b]) && Copying(s'.pc[b]);
    }
    forall l | 0 <= l < c.lanes ensures LaneOk(c, s', l) {
      assert LaneOk(c, s, l);
    }
  }

  lemma StoreInv<T>(c: Config<T>, s: State<T>, b: nat, w: nat)
    requires Inv(c, s) && Enabled(c, s, StoreOut(b, w))
    ensures Inv(c, Apply(c, s, StoreOut(b, w)))
  {
    BlockInTurn(c, s, StoreOut(b, w));
    var s' := Apply(c, s, StoreOut(b, w));
    if b < c.rows {
      assert AllInside(s.pc[b]) && AllInside(s'.pc[b]);
      assert Ascending(b + 1)[..b] == Ascending(b);
    } else {
      assert Copying(s.pc[b]) && Copying(s'.pc[b]);
    }
    forall l | 0 <= l < c.lanes ensures LaneOk(c, s', l) {
      assert LaneOk(c, s, l);
    }
  }

  lemma AddInv<T>(c: Config<T>, s: State<T>, b: nat)
    requires Inv(c, s) && Enabled(c, s, AddOne(b))
    ensures Inv(c, Apply(c, s, AddOne(b)))
  {
    BlockInTurn(c, s, AddOne(b));
    var s' := Apply(c, s, AddOne(b));
    assert b < c.rows && Leaving(s.pc[b]);
    assert AllDone(s'.pc[b]);
    assert Waiting(s'.pc[b + 1]);
    forall l | 0 <= l < c.lanes ensures LaneOk(c, s', l) {
      assert LaneOk(c, s, l);
    }
  }

  lemma StepInv<T>(c: Config<T>, s: State<T>, step: Step)
    requires Inv(c, s) && Enabled(c, s, step)
    ensures Inv(c, Apply(c, s, step))
  {
    match step
    case Poll(b) => PollInv(c, s, b);
    case Barrier(b) => BarrierInv(c, s, b);
    case LoadOut(b, w) => LoadInv(c, s, b, w);
    case StoreOut(b, w) => StoreInv(c, s, b, w);
    case AddOne(b) => AddInv(c, s, b);
  }

  // ---------------------------------------------------------------- runs

  ghost predicate Legal<T>(c: Config<T>, s: State<T>, steps: seq<Step>)
    requires Shape(c, s)
    decreases |steps|
  {
    steps == [] || (Enabled(c, s, steps[0]) && Legal(c, Apply(c, s, steps[0]), steps[1..]))
  }

  ghost function After<T>(c: Config<T>, s: State<T>, steps: seq<Step>): (s': State<T>)
    requires Shape(c, s) && Legal(c, s, steps)
    ensures Shape(c, s')
    decreases |steps|
  {
    if steps == [] then s else After(c, Apply(c, s, steps[0]), steps[1..])
  }

  /** States of all runs from a zeroed counter and output. */
  ghost predicate Reachable<T(!new)>(c: Config<T>, s: State<T>) {
    exists aux, steps :: Reaches(c, aux, steps, s)
  }

  ghost predicate Reaches<T>(c: Config<T>, aux: seq<T>, steps: seq<Step>, s: State<T>) {
    && Launchable(c) && |aux| == c.lanes
    && Shape(c, Init(c, aux))
    && Legal(c, Init(c, aux), steps) && After(c, Init(c, aux), steps) == s
  }

  lemma {:induction false} RunInv<T>(c: Config<T>, s: State<T>, steps: seq<Step>)
    requires Inv(c, s) && Legal(c, s, steps)
    ensures Inv(c, After(c, s, steps))
    decreases |steps|
  {
    if steps != [] {
      StepInv(c, s, steps[0]);
      RunInv(c, Apply(c, s, steps[0]), steps[1..]);
    }
  }

  lemma ReachableInv<T(!new)>(c: Config<T>, s: State<T>)
    requires Reachable(c, s)
    ensures Inv(c, s)
  {
    var aux, steps :| Reaches(c, aux, steps, s);
    InitInv(c, aux);
    RunInv(c, Init(c, aux), steps);
  }

  // ---------------------------------------------------------------- safety

  /** From leaving the spin loop of `wait_eq` until the counter is incremented. */
  predicate Critical(pc: Pc, wave: nat) {
    Inside(pc) || pc == Signal || (wave == 0 && pc == AtEntry)
  }

  ghost predicate Occupied(pcs: seq<Pc>) {
    exists w :: 0 <= w < |pcs| && Critical(pcs[w], w)
  }

  /** No two workgroups are ever in the critical region, and the one inside is the one the counter names. */
  lemma MutualExclusion<T(!new)>(c: Config<T>, s: State<T>, b1: nat, b2: nat)
    requires Reachable(c, s) && b1 <= c.rows && b2 <= c.rows
    ensures |s.pc| == c.rows + 1
    ensures Occupied(s.pc[b1]) ==> b1 == s.cnt
    ensures Occupied(s.pc[b1]) && Occupied(s.pc[b2]) ==> b1 == b2
  {
    ReachableInv(c, s);
    forall b | 0 <= b <= c.rows && b != s.cnt ensures !Occupied(s.pc[b]) {
      assert if b < s.cnt then AllDone(s.pc[b]) else Waiting(s.pc[b]);
    }
  }

  /** Whenever the counter is v and nobody is inside, every output lane is the host's sum of rows 0..v-1:
      commutativity of add suffices because the commit order is the block order. */
  lemma QuiescentSum<T(!new)>(c: Config<T>, s: State<T>, l: nat)
    requires Reachable(c, s) && Commutative(c.add)
    requires l < c.lanes && forall b :: 0 <= b < |s.pc| && b < c.rows ==> !Occupied(s.pc[b])
    ensures s.cnt <= c.rows
    ensures |c.input| == c.rows * c.lanes && |s.out| == c.lanes
    ensures s.out[l] == HostFold(c.add, c.zero, c.input, c.rows, c.lanes, s.cnt, l)
  {
    ReachableInv(c, s);
    assert LaneOk(c, s, l);
    if s.cnt < c.rows && Stored(s.pc[s.cnt][c.WaveOf(l)]) {
      assert !Waiting(s.pc[s.cnt]) && !Entered(s.pc[s.cnt]);
      assert Critical(s.pc[s.cnt][0], 0);
      assert false;
    }
    AscendingIsHost(c.add, c.zero, c.input, c.rows, c.lanes, s.cnt, l);
  }

  ghost predicate Complete<T>(s: State<T>) {
    forall b :: 0 <= b < |s.pc| ==> AllDone(s.pc[b])
  }

  /** At the end the output equals the host reduction and the copy equals the output. */
  lemma FinalResult<T(!new)>(c: Config<T>, s: State<T>, l: nat)
    requires Reachable(c, s) && Commutative(c.add) && Complete(s) && l < c.lanes
    ensures |c.input| == c.rows * c.lanes && |s.out| == |s.aux| == c.lanes
    ensures s.out[l] == HostFold(c.add, c.zero, c.input, c.rows, c.lanes, c.rows, l)
    ensures s.aux[l] == s.out[l]
  {
    ReachableInv(c, s);
    assert LaneOk(c, s, l);
    assert AllDone(s.pc[c.rows]);
    assert s.pc[c.rows][0] == Done;
    assert s.cnt == c.rows;
    QuiescentSum(c, s, l);
  }

  // ---------------------------------------------------------------- progress

  /** A workgroup still polling has not been overtaken: the counter can only reach its value later. */
  lemma NoMissedTicket<T(!new)>(c: Config<T>, s: State<T>, b: nat)
    requires Reachable(c, s) && b <= c.rows
    ensures |s.pc| == c.rows + 1 && |s.pc[b]| > 0
    ensures s.pc[b][0] == Wait ==> s.cnt <= b
    ensures s.cnt + 1 < COUNTER_RANGE
  {
    ReachableInv(c, s);
    if b < s.cnt {
      assert AllDone(s.pc[b]);
    }
  }

  /** Every unfinished state has a step that is not a failed poll. */
  lemma Progress<T(!new)>(c: Config<T>, s: State<T>) returns (step: Step)
    requires Reachable(c, s) && !Complete(s)
    ensures Shape(c, s) && Enabled(c, s, step) && !IsSpin(s, step)
  {
    ReachableInv(c, s);
    var b := s.cnt;
    var pcs := s.pc[b];
    if Waiting(pcs) {
      step := Poll(b);
    } else if Entered(pcs) {
      assert AtBarrier(pcs[0]);
      step := Barrier(b);
    } else if b < c.rows && Leaving(pcs) {
      step := AddOne(b);
    } else if w :| 0 <= w < |pcs| && (pcs[w] == Load || pcs[w] == Store) {
      step := if pcs[w] == Load then LoadOut(b, w) else StoreOut(b, w);
    } else if b < c.rows {
      assert AllInside(pcs);
      assert AtBarrier(pcs[0]);
      step := Barrier(b);
    } else {
      assert AllDone(pcs);
      assert Complete(s);
      assert false;
    }
  }

  function Rank(pc: Pc): nat {
    match pc
    case Wait => 6 case AtEntry => 5 case Load => 4 case Store => 3
    case AtExit => 2 case Signal => 1 case Done => 0
  }

  /** Every step other than a failed poll uses up some of a finite supply. */
  lemma StepConsumes<T>(c: Config<T>, s: State<T>, step: Step)
    requires Shape(c, s) && Enabled(c, s, step) && !IsSpin(s, step)
    ensures BlockRanks(Rank, Apply(c, s, step).pc) < BlockRanks(Rank, s.pc)
  {
    var b := step.block;
    var pcs := Apply(c, s, step).pc[b];
    assert Apply(c, s, step).pc == s.pc[b := pcs];
    if step.Barrier? {
      var w :| 0 <= w < |s.pc[b]| && AtBarrier(s.pc[b][w]);
      StepLowers(Rank, s.pc, b, pcs, w);
    } else {
      StepLowers(Rank, s.pc, b, pcs, if step.LoadOut? || step.StoreOut? then step.wave else 0);
    }
  }

  /** The number of steps of a run that are not failed polls. */
  ghost function Work<T>(c: Config<T>, s: State<T>, steps: seq<Step>): nat
    requires Shape(c, s) && Legal(c, s, steps)
    decreases |steps|
  {
    if steps == [] then 0
    else (if IsSpin(s, steps[0]) then 0 else 1) + Work(c, Apply(c, s, steps[0]), steps[1..])
  }

  /** All runs do a bounded amount of work, so with `Progress` a run that keeps taking available work
      ends complete. */
  lemma {:induction false} BoundedWork<T>(c: Config<T>, s: State<T>, steps: seq<Step>)
    requires Shape(c, s) && Legal(c, s, steps)
    ensures Work(c, s, steps) + BlockRanks(Rank, After(c, s, steps).pc) <= BlockRanks(Rank, s.pc)
    decreases |steps|
  {
    if steps != [] {
      if !IsSpin(s, steps[0]) {
        StepConsumes(c, s, steps[0]);
      }
      BoundedWork(c, Apply(c, s, steps[0]), steps[1..]);
    }
  }
}
