/** `simple_workgroup_reduce<false>`: workgroups take a lock word with compare-and-swap, in any order.

    `release` gives the lock up before its barrier, so the critical region protects only the lanes of
    thread 0's wave.  Those lanes get every update; a lane of any other wave can lose one. */
module LockReduce {
  import opened ReduceSpec
  import opened WorkgroupKernel

  /** `order` records the workgroups in the order in which thread 0's wave stored; it is history only. */
  datatype State<!T> = State(word: nat, out: seq<T>, pc: seq<seq<Pc>>, reg: seq<seq<T>>, order: seq<nat>)

  datatype Step = TryAcquire(block: nat) | Barrier(block: nat) | LoadOut(block: nat, wave: nat)
                | StoreOut(block: nat, wave: nat) | TryRelease(block: nat)

  function Init<T>(c: Config<T>): State<T>
    requires c.lanes > 0 && c.waveSize > 0
  {
    State(0, seq(c.lanes, _ => c.zero),
          seq(c.rows, _ => seq(c.Waves(), w requires w >= 0 => StartPc(w))),
          seq(c.rows, _ => seq(c.lanes, _ => c.zero)), [])
  }

  ghost predicate Shape<T>(c: Config<T>, s: State<T>) {
    && c.Valid()
    && |s.out| == c.lanes
    && |s.pc| == |s.reg| == c.rows
    && (forall b :: 0 <= b < c.rows ==> |s.pc[b]| == c.Waves())
    && (forall b :: 0 <= b < c.rows ==> |s.reg[b]| == c.lanes)
    && (forall i :: 0 <= i < |s.order| ==> s.order[i] < c.rows)
  }

  function PastBarrier(pc: Pc): Pc {
    match pc
    case AtEntry => Load
    case AtExit => Done
    case _ => pc
  }

  ghost predicate Enabled<T>(c: Config<T>, s: State<T>, step: Step)
    requires Shape(c, s)
  {
    && step.block < c.rows
    && match step
       case TryAcquire(b) => s.pc[b][0] == Wait
       case Barrier(b) => BarrierOpen(s.pc[b])
       case LoadOut(b, w) => w < c.Waves() && s.pc[b][w] == Load
       case StoreOut(b, w) => w < c.Waves() && s.pc[b][w] == Store
       case TryRelease(b) => s.pc[b][0] == Signal
  }

  function SetPc<T>(s: State<T>, b: nat, w: nat, pc: Pc): State<T>
    requires b < |s.pc| && w < |s.pc[b]|
  {
    s.(pc := s.pc[b := s.pc[b][w := pc]])
  }

  /** A compare-and-swap that finds another value changes nothing and the loop goes round again. */
  ghost function Apply<T>(c: Config<T>, s: State<T>, step: Step): (s': State<T>)
    requires Shape(c, s) && Enabled(c, s, step)
    ensures Shape(c, s')
  {
    match step
    case TryAcquire(b) => if s.word == 0 then SetPc(s, b, 0, AtEntry).(word := 1) else s
    case Barrier(b) => s.(pc := s.pc[b := OpenBarrier(s.pc[b])])
    case LoadOut(b, w) => SetPc(s, b, w, Store).(reg := s.reg[b := Merge(c, w, s.out, s.reg[b])])
    case StoreOut(b, w) =>
      SetPc(s, b, w, if w == 0 then Signal else AtExit)
        .(out := Merge(c, w, Summed(c, b, s.reg[b]), s.out),
          order := if w == 0 then s.order + [b] else s.order)
    case TryRelease(b) => if s.word == 1 then SetPc(s, b, 0, AtExit).(word := 0) else s
  }

  function OpenBarrier(pcs: seq<Pc>): seq<Pc> {
    seq(|pcs|, w requires 0 <= w < |pcs| => PastBarrier(pcs[w]))
  }

  // ---------------------------------------------------------------- invariant

  /** Thread 0 has the lock. */
  predicate Holding(pc: Pc) {
    pc == AtEntry || pc == Load || pc == Store || pc == Signal
  }

  predicate Committed(pc: Pc) {
    pc == Signal || pc == AtExit || pc == Done
  }

  /** The waves of one workgroup are in step with its barriers. */
  ghost predicate InStep(pcs: seq<Pc>)
    requires |pcs| > 0
  {
    forall w :: 0 < w < |pcs| ==>
      match pcs[0]
      case Wait => pcs[w] == AtEntry
      case AtEntry => pcs[w] == AtEntry
      case Done => pcs[w] == Done
      case _ => pcs[w] == Load || pcs[w] == Store || pcs[w] == AtExit
  }

  ghost predicate LockWord<T>(c: Config<T>, s: State<T>)
    requires Shape(c, s)
  {
    && (s.word == 0 || s.word == 1)
    && (s.word == 0 ==> forall b :: 0 <= b < c.rows ==> !Holding(s.pc[b][0]))
    && (s.word == 1 ==> exists b :: 0 <= b < c.rows && Holding(s.pc[b][0]))
    && (forall b, d :: 0 <= b < c.rows && 0 <= d < c.rows && Holding(s.pc[b][0]) && Holding(s.pc[d][0]) ==> b == d)
  }

  ghost predicate OrderOk<T>(c: Config<T>, s: State<T>)
    requires Shape(c, s)
  {
    && (forall i, j :: 0 <= i < j < |s.order| ==> s.order[i] != s.order[j])
    && (forall i :: 0 <= i < |s.order| ==> Committed(s.pc[s.order[i]][0]))
    && (forall b :: 0 <= b < c.rows && Committed(s.pc[b][0]) ==> b in s.order)
  }

  ghost predicate LaneOk<T>(c: Config<T>, s: State<T>, l: nat)
    requires Shape(c, s) && l < c.lanes
  {
    && s.out[l] == OrderFold(c.add, c.zero, c.input, c.rows, c.lanes, s.order, l)
    && (forall b :: 0 <= b < c.rows && s.pc[b][0] == Store ==> s.reg[b][l] == s.out[l])
  }

  ghost predicate Inv<T>(c: Config<T>, s: State<T>) {
    && Shape(c, s)
    && (forall b :: 0 <= b < c.rows ==> InStep(s.pc[b]))
    && LockWord(c, s) && OrderOk(c, s)
    && (forall l :: 0 <= l < c.lanes && c.WaveOf(l) == 0 ==> LaneOk(c, s, l))
  }

  lemma InitInv<T>(c: Config<T>)
    requires c.Valid()
    ensures Inv(c, Init(c))
  {
  }

  lemma AcquireInv<T>(c: Config<T>, s: State<T>, b: nat)
    requires Inv(c, s) && Enabled(c, s, TryAcquire(b))
    ensures Inv(c, Apply(c, s, TryAcquire(b)))
  {
    var s' := Apply(c, s, TryAcquire(b));
    if s.word == 0 {
      assert Holding(s'.pc[b][0]);
      forall l | 0 <= l < c.lanes && c.WaveOf(l) == 0 ensures LaneOk(c, s', l) {
        assert LaneOk(c, s, l);
      }
    }
  }

  /** A step of block `b` that leaves the word, the history and thread 0's wave of the output alone. */
  lemma FrameInv<T>(c: Config<T>, s: State<T>, s': State<T>, b: nat)
    requires Inv(c, s) && Shape(c, s') && b < c.rows
    requires s'.word == s.word && s'.order == s.order
    requires forall d :: 0 <= d < c.rows && d != b ==> s'.pc[d] == s.pc[d]
    requires InStep(s'.pc[b])
    requires Holding(s'.pc[b][0]) == Holding(s.pc[b][0]) && Committed(s'.pc[b][0]) == Committed(s.pc[b][0])
    requires forall l :: 0 <= l < c.lanes && c.WaveOf(l) == 0 ==> s'.out[l] == s.out[l]
    requires forall l, d :: 0 <= l < c.lanes && c.WaveOf(l) == 0 && 0 <= d < c.rows && s'.pc[d][0] == Store
               ==> s'.reg[d][l] == s'.out[l]
    ensures Inv(c, s')
  {
    assert LockWord(c, s') by {
      assert forall d :: 0 <= d < c.rows ==> Holding(s'.pc[d][0]) == Holding(s.pc[d][0]);
    }
    forall l | 0 <= l < c.lanes && c.WaveOf(l) == 0 ensures LaneOk(c, s', l) {
      assert LaneOk(c, s, l);
    }
  }

  lemma BarrierInv<T>(c: Config<T>, s: State<T>, b: nat)
    requires Inv(c, s) && Enabled(c, s, Barrier(b))
    ensures Inv(c, Apply(c, s, Barrier(b)))
  {
    var s' := Apply(c, s, Barrier(b));
    assert InStep(s.pc[b]);
    var w :| 0 <= w < |s.pc[b]| && AtBarrier(s.pc[b][w]);
    assert AtBarrier(s.pc[b][0]);
    assert InStep(s'.pc[b]);
    forall l, d | 0 <= l < c.lanes && c.WaveOf(l) == 0 && 0 <= d < c.rows && s'.pc[d][0] == Store
      ensures s'.reg[d][l] == s'.out[l]
    {
      assert LaneOk(c, s, l);
    }
    FrameInv(c, s, s', b);
  }

  lemma LoadInv<T>(c: Config<T>, s: State<T>, b: nat, w: nat)
    requires Inv(c, s) && Enabled(c, s, LoadOut(b, w))
    ensures Inv(c, Apply(c, s, LoadOut(b, w)))
  {
    var s' := Apply(c, s, LoadOut(b, w));
    assert InStep(s.pc[b]);
    assert InStep(s'.pc[b]);
    forall l, d | 0 <= l < c.lanes && c.WaveOf(l) == 0 && 0 <= d < c.rows && s'.pc[d][0] == Store
      ensures s'.reg[d][l] == s'.out[l]
    {
      assert LaneOk(c, s, l);
    }
    FrameInv(c, s, s', b);
  }

  /** A store by a wave without thread 0 is outside the lock's protection and does not touch its lanes. */
  lemma OtherStoreInv<T>(c: Config<T>, s: State<T>, b: nat, w: nat)
    requires Inv(c, s) && Enabled(c, s, StoreOut(b, w)) && w > 0
    ensures Inv(c, Apply(c, s, StoreOut(b, w)))
  {
    var s' := Apply(c, s, StoreOut(b, w));
    assert InStep(s.pc[b]);
    assert InStep(s'.pc[b]);
    forall l, d | 0 <= l < c.lanes && c.WaveOf(l) == 0 && 0 <= d < c.rows && s'.pc[d][0] == Store
      ensures s'.reg[d][l] == s'.out[l]
    {
      assert LaneOk(c, s, l);
    }
    FrameInv(c, s, s', b);
  }

  lemma FirstStoreOrder<T>(c: Config<T>, s: State<T>, b: nat)
    requires Inv(c, s) && Enabled(c, s, StoreOut(b, 0))
    ensures OrderOk(c, Apply(c, s, StoreOut(b, 0)))
  {
    var s' := Apply(c, s, StoreOut(b, 0));
    assert forall d :: 0 <= d < c.rows && d != b ==> s'.pc[d] == s.pc[d];
    assert s'.order[|s.order|] == b;
    assert forall i :: 0 <= i < |s.order| ==> s'.order[i] == s.order[i];
    assert b !in s.order by {
      assert !Committed(s.pc[b][0]);
    }
    forall d | 0 <= d < c.rows && Committed(s'.pc[d][0]) ensures d in s'.order {
      if d != b {
        assert d in s.order;
      }
    }
  }

  lemma FirstStoreLane<T>(c: Config<T>, s: State<T>, b: nat, l: nat)
    requires Inv(c, s) && Enabled(c, s, StoreOut(b, 0)) && l < c.lanes && c.WaveOf(l) == 0
    ensures LaneOk(c, Apply(c, s, StoreOut(b, 0)), l)
  {
    var s' := Apply(c, s, StoreOut(b, 0));
    assert LaneOk(c, s, l);
    assert s'.order[..|s.order|] == s.order;
    assert Holding(s.pc[b][0]);
  }

  lemma FirstStoreInv<T>(c: Config<T>, s: State<T>, b: nat)
    requires Inv(c, s) && Enabled(c, s, StoreOut(b, 0))
    ensures Inv(c, Apply(c, s, StoreOut(b, 0)))
  {
    var s' := Apply(c, s, StoreOut(b, 0));
    FirstStoreOrder(c, s, b);
    assert InStep(s'.pc[b]) by { assert InStep(s.pc[b]); }
    assert LockWord(c, s') by {
      assert forall d :: 0 <= d < c.rows ==> Holding(s'.pc[d][0]) == Holding(s.pc[d][0]);
    }
    forall l | 0 <= l < c.lanes && c.WaveOf(l) == 0 ensures LaneOk(c, s', l) {
      FirstStoreLane(c, s, b, l);
    }
  }

  lemma ReleaseInv<T>(c: Config<T>, s: State<T>, b: nat)
    requires Inv(c, s) && Enabled(c, s, TryRelease(b))
    ensures s.word == 1
    ensures Inv(c, Apply(c, s, TryRelease(b)))
  {
    var s' := Apply(c, s, TryRelease(b));
    assert Holding(s.pc[b][0]);
    assert InStep(s.pc[b]);
    assert InStep(s'.pc[b]);
    forall l | 0 <= l < c.lanes && c.WaveOf(l) == 0 ensures LaneOk(c, s', l) {
      assert LaneOk(c, s, l);
    }
  }

  lemma StepInv<T>(c: Config<T>, s: State<T>, step: Step)
    requires Inv(c, s) && Enabled(c, s, step)
    ensures Inv(c, Apply(c, s, step))
  {
    match step
    case TryAcquire(b) => AcquireInv(c, s, b);
    case Barrier(b) => BarrierInv(c, s, b);
    case LoadOut(b, w) => LoadInv(c, s, b, w);
    case StoreOut(b, w) => if w == 0 { FirstStoreInv(c, s, b); } else { OtherStoreInv(c, s, b, w); }
    case TryRelease(b) => ReleaseInv(c, s, b);
  }

  // ---------------------------------------------------------------- runs

  ghost predicate Legal<T>(c: Config<T>, s: State<T>, steps: seq<Step>)
    requires Shape(c, s)
    decreases |steps|
  {
    steps == [] || (Enabled(c, s, steps[0]) && Legal(c, Apply(c, s, steps[0]), steps[1..]))
  }

  ghost function After<T>(c: Config<T>, s: State<T>, steps: seq<Step>): (s': State<T>)
    requires Shape(c, s) && Legal(c, s, steps)
    ensures Shape(c, s')
    decreases |steps|
  {
    if steps == [] then s else After(c, Apply(c, s, steps[0]), steps[1..])
  }

  ghost predicate Reaches<T>(c: Config<T>, steps: seq<Step>, s: State<T>) {
    c.Valid() && Shape(c, Init(c)) && Legal(c, Init(c), steps) && After(c, Init(c), steps) == s
  }

  ghost predicate Reachable<T(!new)>(c: Config<T>, s: State<T>) {
    exists steps :: Reaches(c, steps, s)
  }

  lemma {:induction false} RunInv<T>(c: Config<T>, s: State<T>, steps: seq<Step>)
    requires Inv(c, s) && Legal(c, s, steps)
    ensures Inv(c, After(c, s, steps))
    decreases |steps|
  {
    if steps != [] {
      StepInv(c, s, steps[0]);
      RunInv(c, Apply(c, s, steps[0]), steps[1..]);
    }
  }

  lemma ReachableInv<T(!new)>(c: Config<T>, s: State<T>)
    requires Reachable(c, s)
    ensures Inv(c, s)
  {
    var steps :| Reaches(c, steps, s);
    InitInv(c);
    RunInv(c, Init(c), steps);
  }

  // ---------------------------------------------------------------- safety

  ghost predicate Complete<T>(s: State<T>) {
    forall b, w :: 0 <= b < |s.pc| && 0 <= w < |s.pc[b]| ==> s.pc[b][w] == Done
  }

  /** The word is 1 exactly while some thread 0 is between its two exchanges, and then only one is. */
  lemma LockWordMeaning<T(!new)>(c: Config<T>, s: State<T>)
    requires Reachable(c, s)
    ensures Shape(c, s)
    ensures s.word == 1 <==> exists b :: 0 <= b < c.rows && Holding(s.pc[b][0])
    ensures forall b, d :: 0 <= b < c.rows && 0 <= d < c.rows && Holding(s.pc[b][0]) && Holding(s.pc[d][0]) ==> b == d
  {
    ReachableInv(c, s);
  }

  /** `release` succeeds at its first attempt. */
  lemma ReleaseNeverSpins<T(!new)>(c: Config<T>, s: State<T>, b: nat)
    requires Reachable(c, s) && Shape(c, s) && Enabled(c, s, TryRelease(b))
    ensures Apply(c, s, TryRelease(b)).pc[b][0] == AtExit && Apply(c, s, TryRelease(b)).word == 0
  {
    ReachableInv(c, s);
    ReleaseInv(c, s, b);
  }

  /** In every reachable state a lane of thread 0's wave holds the rows committed so far, each once. */
  lemma NoLostUpdate<T(!new)>(c: Config<T>, s: State<T>, l: nat)
    requires Reachable(c, s) && l < c.lanes && c.waveSize > 0 && c.WaveOf(l) == 0
    ensures Shape(c, s)
    ensures s.out[l] == OrderFold(c.add, c.zero, c.input, c.rows, c.lanes, s.order, l)
    ensures forall i, j :: 0 <= i < j < |s.order| ==> s.order[i] != s.order[j]
    ensures forall b :: 0 <= b < c.rows ==> (b in s.order <==> Committed(s.pc[b][0]))
  {
    ReachableInv(c, s);
    assert LaneOk(c, s, l);
  }

  lemma FinalOrder<T(!new)>(c: Config<T>, s: State<T>)
    requires Reachable(c, s) && Complete(s)
    ensures IsPermutation(s.order, c.rows)
  {
    ReachableInv(c, s);
    forall row: nat ensures row in s.order <==> row < c.rows {
      if row < c.rows {
        assert s.pc[row][0] == Done;
      }
    }
  }

  /** At the end such a lane holds all rows in some order, which is the host's sum when add is also
      associative. */
  lemma FinalResult<T(!new)>(c: Config<T>, s: State<T>, l: nat)
    requires Reachable(c, s) && Complete(s)
    requires l < c.lanes && c.waveSize > 0 && c.WaveOf(l) == 0
    ensures Shape(c, s) && IsPermutation(s.order, c.rows)
    ensures s.out[l] == OrderFold(c.add, c.zero, c.input, c.rows, c.lanes, s.order, l)
    ensures Commutative(c.add) && Associative(c.add)
        ==> s.out[l] == HostFold(c.add, c.zero, c.input, c.rows, c.lanes, c.rows, l)
  {
    NoLostUpdate(c, s, l);
    FinalOrder(c, s);
    if Commutative(c.add) && Associative(c.add) {
      PermutationIsHost(c.add, c.zero, c.input, c.rows, c.lanes, s.order, c.rows, l);
    }
  }

  /** A compare-and-swap that finds the other value and goes round again. */
  predicate Spins<T>(s: State<T>, step: Step) {
    (step.TryAcquire? && s.word != 0) || (step.TryRelease? && s.word != 1)
  }

  /** A block past `release`'s swap whose waves have not all ended can step. */
  lemma ExitProgress<T>(c: Config<T>, s: State<T>, b: nat) returns (step: Step)
    requires Inv(c, s) && b < c.rows && s.pc[b][0] == AtExit
    ensures Enabled(c, s, step) && !Spins(s, step)
  {
    assert InStep(s.pc[b]);
    if w: nat :| w < |s.pc[b]| && s.pc[b][w] == Load {
      step := LoadOut(b, w);
    } else if w: nat :| w < |s.pc[b]| && s.pc[b][w] == Store {
      step := StoreOut(b, w);
    } else {
      assert forall w :: 0 <= w < |s.pc[b]| ==> s.pc[b][w] == AtExit;
      step := Barrier(b);
    }
  }

  /** The holder of the lock can always go on. */
  lemma HolderProgress<T>(c: Config<T>, s: State<T>, b: nat) returns (step: Step)
    requires Inv(c, s) && b < c.rows && Holding(s.pc[b][0]) && s.word == 1
    ensures Enabled(c, s, step) && !Spins(s, step)
  {
    assert InStep(s.pc[b]);
    match s.pc[b][0]
    case AtEntry =>
      assert forall w :: 0 <= w < |s.pc[b]| ==> s.pc[b][w] == AtEntry;
      step := Barrier(b);
    case Load => step := LoadOut(b, 0);
    case Store => step := StoreOut(b, 0);
    case _ => step := TryRelease(b);
  }

  /** No deadlock: until all waves have ended, a step other than a failed compare-and-swap is enabled. */
  lemma Progress<T(!new)>(c: Config<T>, s: State<T>) returns (step: Step)
    requires Reachable(c, s) && !Complete(s)
    ensures Inv(c, s) && Enabled(c, s, step) && !Spins(s, step)
  {
    ReachableInv(c, s);
    if s.word == 1 {
      var b :| 0 <= b < c.rows && Holding(s.pc[b][0]);
      step := HolderProgress(c, s, b);
    } else {
      var b, w :| 0 <= b < |s.pc| && 0 <= w < |s.pc[b]| && s.pc[b][w] != Done;
      assert InStep(s.pc[b]) && !Holding(s.pc[b][0]);
      if s.pc[b][0] == Wait {
        step := TryAcquire(b);
      } else {
        step := ExitProgress(c, s, b);
      }
    }
  }

  // ---------------------------------------------------------------- bounded work

  function Rank(pc: Pc): nat {
    match pc
    case Wait => 6 case AtEntry => 5 case Load => 4 case Store => 3
    case Signal => 2 case AtExit => 1 case Done => 0
  }

  /** Every step other than a failed compare-and-swap uses up some of a finite supply. */
  lemma StepConsumes<T>(c: Config<T>, s: State<T>, step: Step)
    requires Shape(c, s) && Enabled(c, s, step) && !Spins(s, step)
    ensures BlockRanks(Rank, Apply(c, s, step).pc) < BlockRanks(Rank, s.pc)
  {
    var b := step.block;
    var pcs := Apply(c, s, step).pc[b];
    assert Apply(c, s, step).pc == s.pc[b := pcs];
    if step.Barrier? {
      var w :| 0 <= w < |s.pc[b]| && AtBarrier(s.pc[b][w]);
      StepLowers(Rank, s.pc, b, pcs, w);
    } else {
      StepLowers(Rank, s.pc, b, pcs, if step.LoadOut? || step.StoreOut? then step.wave else 0);
    }
  }

  /** The number of steps of a run that are not failed compare-and-swaps. */
  ghost function Work<T>(c: Config<T>, s: State<T>, steps: seq<Step>): nat
    requires Shape(c, s) && Legal(c, s, steps)
    decreases |steps|
  {
    if steps == [] then 0
    else (if Spins(s, steps[0]) then 0 else 1) + Work(c, Apply(c, s, steps[0]), steps[1..])
  }

  /** All runs do a bounded amount of work, so with `Progress` a run that keeps taking available work ends complete. */
  lemma {:induction false} BoundedWork<T>(c: Config<T>, s: State<T>, steps: seq<Step>)
    requires Shape(c, s) && Legal(c, s, steps)
    ensures Work(c, s, steps) + BlockRanks(Rank, After(c, s, steps).pc) <= BlockRanks(Rank, s.pc)
    decreases |steps|
  {
    if steps != [] {
      if !Spins(s, steps[0]) {
        StepConsumes(c, s, steps[0]);
      }
      BoundedWork(c, Apply(c, s, steps[0]), steps[1..]);
    }
  }
}
