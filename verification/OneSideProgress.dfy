/** Every run of the one-sided pipeline is finite: each step uses up some of the work left. */
module OneSideProgress {
  import opened LoadOrder
  import opened PipelineOneSide
  import opened OneSideLoads
  import opened OneSideTile
  import opened OneSideSafety

  function Count(flags: seq<bool>): nat {
    if flags == [] then 0 else (if flags[0] then 1 else 0) + Count(flags[1..])
  }

  lemma {:induction false} CountAll(n: nat)
    ensures Count(seq(n, _ => true)) == n
  {
    if n > 0 {
      CountAll(n - 1);
      assert seq(n, _ => true)[1..] == seq(n - 1, _ => true);
    }
  }

  lemma {:induction false} CountClear(flags: seq<bool>, i: nat)
    requires i < |flags| && flags[i]
    ensures Count(flags[i := false]) == Count(flags) - 1
  {
    if i > 0 {
      assert flags[i := false][1..] == flags[1..][i - 1 := false];
      CountClear(flags[1..], i - 1);
    }
  }

  lemma {:induction false} CountNone(flags: seq<bool>)
    requires true !in flags
    ensures Count(flags) == 0
  {
    if flags != [] { CountNone(flags[1..]); }
  }

  /** Instructions of a round still ahead, every issued load, store and read counting again on completion. */
  function StageLeft(c: Config, stage: Stage): int {
    var o := c.order;
    match stage
    case Issue(r) => 11 + o.ny + c.Frags() + c.Total() + 2 * (o.T() - r)
    case SstFence => 10 + o.ny + c.Frags() + c.Total()
    case AtBarrierA => 9 + o.ny + c.Frags() + c.Total()
    case LdsRead => 8 + o.ny + c.Frags() + c.Total()
    case XFence => 7 + o.ny + c.Total()
    case SldFence => 6 + o.ny + c.Total()
    case Mfma(j) => 5 + o.ny + c.Total() - j
    case AtBarrierB => 4 + o.ny
    case YFence => 3 + o.ny
    case Store => 2 + o.ny
    case Done => 0
  }

  function Round(c: Config): nat { 11 + c.order.ny + c.Frags() + c.Total() + 2 * c.order.T() }

  function Rounds(c: Config, n: nat): nat { if n == 0 then 0 else Rounds(c, n - 1) + Round(c) }

  function Work(c: Config, v: Wave): int
    requires v.round <= |c.calls|
  {
    Rounds(c, |c.calls| - v.round) + StageLeft(c, v.stage) + |v.queue| + |v.stores| + Count(v.fetching)
  }

  lemma WorkLeft(c: Config, v: Wave)
    requires ShapeOf(c, v)
    ensures Work(c, v) >= 0
  {
  }

  lemma AllStored(yBuf: seq<Slice>, n: nat, stores: map<nat, Slice>)
    requires n <= |yBuf| && stores == map i: nat | i < n :: yBuf[i]
    ensures |stores| <= n
  {
    if n == 0 {
      assert stores == map[];
    } else {
      var rest := map i: nat | i < n - 1 :: yBuf[i];
      AllStored(yBuf, n - 1, rest);
      assert stores == rest[n - 1 := yBuf[n - 1]];
    }
  }

  lemma MfmaUses(c: Config, w: nat, v: Wave)
    requires c.Valid() && Plan(c) && ShapeOf(c, v) && v.stage.Mfma?
    ensures AdvanceWave(c, w, v).round <= |c.calls| && Work(c, AdvanceWave(c, w, v)) < Work(c, v)
  {
    HotRounds(c, v.round);
    if v.stage.j < c.Total() { MultiplyFrame(c, w, v); }
  }

  lemma ReadUses(c: Config, w: nat, v: Wave)
    requires c.Valid() && Plan(c) && ShapeOf(c, v) && FragsInv(c, v) && v.stage == LdsRead
    ensures Work(c, AdvanceWave(c, w, v)) < Work(c, v)
  {
    CountAll(c.Frags());
    CountNone(v.fetching);
  }

  lemma StoreUses(c: Config, w: nat, v: Wave)
    requires c.Valid() && Plan(c) && ShapeOf(c, v) && StoresInv(c, v) && v.stage == Store
    requires AdvanceWave(c, w, v).round <= |c.calls|
    ensures Work(c, AdvanceWave(c, w, v)) < Work(c, v)
  {
    AllStored(v.yBuf, c.order.ny, AdvanceWave(c, w, v).stores);
  }

  lemma AdvanceUses(c: Config, w: nat, v: Wave)
    requires c.Valid() && Plan(c) && ShapeOf(c, v) && Ready(c, v) && StoresInv(c, v) && FragsInv(c, v)
    requires AdvanceWave(c, w, v).round <= |c.calls|
    ensures Work(c, AdvanceWave(c, w, v)) < Work(c, v)
  {
    HotRounds(c, v.round);
    match v.stage
    case LdsRead => ReadUses(c, w, v);
    case Store => StoreUses(c, w, v);
    case Mfma(_) => MfmaUses(c, w, v);
    case _ =>
  }

  lemma SmallerMap(m: map<nat, Slice>, i: nat)
    requires i in m
    ensures |m - {i}| < |m|
  {
    var rest := m - {i};
    assert m == rest[i := m[i]];
  }

  function TotalWork(c: Config, waves: seq<Wave>): int
    requires forall w :: 0 <= w < |waves| ==> waves[w].round <= |c.calls|
  {
    if waves == [] then 0 else Work(c, waves[0]) + TotalWork(c, waves[1..])
  }

  /** Less for some waves and more for none is less in all. */
  lemma {:induction false} LessInAll(c: Config, before: seq<Wave>, later: seq<Wave>)
    requires |before| == |later|
    requires forall w :: 0 <= w < |before| ==> before[w].round <= |c.calls| && later[w].round <= |c.calls|
    requires forall w :: 0 <= w < |before| ==> Work(c, later[w]) <= Work(c, before[w])
    ensures TotalWork(c, later) <= TotalWork(c, before)
    ensures (exists w :: 0 <= w < |before| && Work(c, later[w]) < Work(c, before[w])) ==> TotalWork(c, later) < TotalWork(c, before)
  {
    if before != [] {
      forall w | 0 <= w < |before| - 1
        ensures before[1..][w].round <= |c.calls| && later[1..][w].round <= |c.calls|
        ensures Work(c, later[1..][w]) <= Work(c, before[1..][w])
      {
        assert before[1..][w] == before[w + 1] && later[1..][w] == later[w + 1];
      }
      LessInAll(c, before[1..], later[1..]);
      if w :| 1 <= w < |before| && Work(c, later[w]) < Work(c, before[w]) {
        assert Work(c, later[1..][w - 1]) < Work(c, before[1..][w - 1]);
      }
    }
  }

  lemma RetireUses(c: Config, v: Wave)
    requires ShapeOf(c, v) && v.queue != []
    ensures Work(c, RetireWave(v)) < Work(c, v)
  {
  }

  lemma LandUses(c: Config, v: Wave, i: nat)
    requires ShapeOf(c, v) && i in v.stores
    ensures Work(c, v.(stores := v.stores - {i})) < Work(c, v)
  {
    SmallerMap(v.stores, i);
  }

  lemma ArriveUses(c: Config, v: Wave, f: nat, lds: seq<Slice>)
    requires ShapeOf(c, v) && f < c.Frags() && v.fetching[f]
    ensures Work(c, v.(fetching := v.fetching[f := false], yFrag := v.yFrag[f := lds])) < Work(c, v)
  {
    CountClear(v.fetching, f);
  }

  lemma BarrierUses(c: Config, v: Wave)
    requires ShapeOf(c, v) && AtBarrier(v)
    ensures Work(c, PassBarrier(v)) < Work(c, v)
  {
  }

  /** The wave a step belongs to. */
  function Actor(step: Step): nat { if step == Barrier then 0 else step.w }

  lemma ActorUses(c: Config, s: State, step: Step)
    requires Inv(c, s) && Enabled(c, s, step)
    ensures Apply(c, s, step).waves[Actor(step)].round <= |c.calls|
    ensures Work(c, Apply(c, s, step).waves[Actor(step)]) < Work(c, s.waves[Actor(step)])
  {
    var w := Actor(step);
    var v := s.waves[w];
    StepInv(c, s, step);
    WaveHolds(c, s, w);
    match step
    case Advance(_) => AdvanceUses(c, w, v);
    case Barrier => BarrierUses(c, v);
    case Retire(_) => RetireUses(c, v);
    case Land(_, i) => LandUses(c, v, i);
    case Arrive(_, f) => ArriveUses(c, v, f, s.lds);
  }

  lemma StepUses(c: Config, s: State, step: Step, w: nat)
    requires Inv(c, s) && Enabled(c, s, step) && w < c.waves
    ensures Apply(c, s, step).waves[w].round <= |c.calls|
    ensures Work(c, Apply(c, s, step).waves[w]) <= Work(c, s.waves[w])
  {
    if w == Actor(step) {
      ActorUses(c, s, step);
    } else if step == Barrier {
      WaveHolds(c, s, w);
      BarrierUses(c, s.waves[w]);
    }
  }

  /** From a reachable state no run is longer than the work left, whatever the scheduling. */
  lemma {:induction false} BoundedRun(c: Config, s: State, run: seq<Step>)
    requires Inv(c, s) && Legal(c, s, run)
    ensures |run| <= TotalWork(c, s.waves)
    decreases |run|
  {
    if run == [] {
      NonNegative(c, s.waves);
    } else {
      var s' := Apply(c, s, run[0]);
      StepInv(c, s, run[0]);
      BoundedRun(c, s', run[1..]);
      forall w | 0 <= w < c.waves ensures Work(c, s'.waves[w]) <= Work(c, s.waves[w]) {
        StepUses(c, s, run[0], w);
      }
      ActorUses(c, s, run[0]);
      LessInAll(c, s.waves, s'.waves);
    }
  }

  lemma {:induction false} NonNegative(c: Config, waves: seq<Wave>)
    requires forall w :: 0 <= w < |waves| ==> waves[w].round <= |c.calls| && ShapeOf(c, waves[w])
    ensures TotalWork(c, waves) >= 0
  {
    if waves != [] {
      WorkLeft(c, waves[0]);
      NonNegative(c, waves[1..]);
    }
  }
}
