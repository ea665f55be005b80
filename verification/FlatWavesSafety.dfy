/** Whole runs of the flat pipeline, waves and LDS accesses interleaved in any way. */
module FlatWavesSafety {
  import opened LoadOrder
  import opened PipelineFlat
  import opened FlatWaves
  import opened FlatWavesLoads
  import opened FlatWavesTiles
  import opened FlatWavesSums

  ghost predicate WaveInv(g: Machine, w: nat, v: Wave, ldsA: seq<Slice>, ldsB: seq<Slice>)
    requires ShapeOf(g, v) && |ldsA| == g.c.a.cells && |ldsB| == g.c.b.cells && g.c.plane > 0
  {
    LoadsInv(g, w, v) && TileInv(g, w, v, ldsA, ldsB) && SumsInv(g, w, v)
  }

  /** A wave of the right shape that meets it. */
  ghost predicate Sound(g: Machine, w: nat, v: Wave, ldsA: seq<Slice>, ldsB: seq<Slice>) {
    ShapeOf(g, v) && |ldsA| == g.c.a.cells && |ldsB| == g.c.b.cells && g.c.plane > 0 && WaveInv(g, w, v, ldsA, ldsB)
  }

  ghost predicate Inv(g: Machine, s: State) {
    && Shape(g, s)
    && (forall w :: 0 <= w < g.c.waves ==> WaveInv(g, w, s.waves[w], s.ldsA, s.ldsB))
    && (forall w, u :: 0 <= w < g.c.waves && 0 <= u < g.c.waves ==> Epoch(s.waves[w]) == Epoch(s.waves[u]))
  }

  lemma InitialWave(g: Machine, s: State, w: nat)
    requires Initial(g, s) && w < g.c.waves
    ensures WaveInv(g, w, s.waves[w], s.ldsA, s.ldsB)
  {
    var v := s.waves[w];
    FreshSide(g.c, w, true, v.aBuf, 0);
    FreshSide(g.c, w, false, v.bBuf, 0);
  }

  lemma InitialInv(g: Machine, s: State)
    requires Initial(g, s)
    ensures Inv(g, s)
  {
    forall w | 0 <= w < g.c.waves ensures WaveInv(g, w, s.waves[w], s.ldsA, s.ldsB) { InitialWave(g, s, w); }
  }

  // ---------------------------------------------------------------- one wave

  /** The part of an instruction that touches neither loads in flight nor registers, stores, reads or products. */
  lemma StageLoads(g: Machine, w: nat, v: Wave, v': Wave)
    requires ShapeOf(g, v) && LoadsInv(g, w, v) && ShapeOf(g, v')
    requires v'.queue == v.queue && v'.aBuf == v.aBuf && v'.bBuf == v.bBuf && v'.round == v.round
    requires v'.aBase == v.aBase && v'.bBase == v.bBase && Consumed(v'.stage) == Consumed(v.stage)
    requires v.stage.Issue? == v'.stage.Issue? == false && Fenced(g, v')
    ensures LoadsInv(g, w, v')
  {
    SameLoads(g, w, v, v');
  }

  /** After the last load of a round: on to the stores in the prologue, to the LDS fence in a call. */
  lemma IssueEnds(g: Machine, w: nat, v: Wave, ldsA: seq<Slice>, ldsB: seq<Slice>, v': Wave)
    requires g.Valid() && ShapeOf(g, v) && |ldsA| == g.c.a.cells && |ldsB| == g.c.b.cells && WaveInv(g, w, v, ldsA, ldsB)
    requires v.stage.Issue? && (!g.Hot(v.round) || v.stage.r == g.c.T())
    requires v' == v.(stage := if v.round == 0 then FirstFence else SstFence) && ShapeOf(g, v')
    ensures WaveInv(g, w, v', ldsA, ldsB)
  {
    SameLoads(g, w, v, v');
    SameTile(g, w, v, ldsA, ldsB, v');
    SameSums(g, w, v, v');
  }

  lemma IssueWave(g: Machine, w: nat, v: Wave, ldsA: seq<Slice>, ldsB: seq<Slice>)
    requires g.Valid() && ShapeOf(g, v) && |ldsA| == g.c.a.cells && |ldsB| == g.c.b.cells && WaveInv(g, w, v, ldsA, ldsB)
    requires v.stage.Issue? && g.Hot(v.round) && v.stage.r < g.c.T()
    ensures ShapeOf(g, IssueLoad(g, v)) && WaveInv(g, w, IssueLoad(g, v), ldsA, ldsB)
  {
    AdvanceIssue(g, w, v);
    SameTile(g, w, v, ldsA, ldsB, IssueLoad(g, v));
    SameSums(g, w, v, IssueLoad(g, v));
  }

  lemma ReadWave(g: Machine, w: nat, v: Wave, ldsA: seq<Slice>, ldsB: seq<Slice>, v': Wave)
    requires g.Valid() && ShapeOf(g, v) && |ldsA| == g.c.a.cells && |ldsB| == g.c.b.cells && WaveInv(g, w, v, ldsA, ldsB)
    requires v.stage == LdsRead && ShapeOf(g, v')
    requires v' == v.(stage := SldFence, fetchA := seq(g.FragsA(), _ => true), fetchB := seq(g.FragsB(), _ => true))
    ensures WaveInv(g, w, v', ldsA, ldsB)
  {
    StageLoads(g, w, v, v');
    ReadTile(g, w, v, ldsA, ldsB, v');
    SameSums(g, w, v, v');
  }

  /** The products and the end of the call. */
  lemma ProductWave(g: Machine, w: nat, v: Wave, ldsA: seq<Slice>, ldsB: seq<Slice>, v': Wave)
    requires g.Valid() && ShapeOf(g, v) && |ldsA| == g.c.a.cells && |ldsB| == g.c.b.cells && WaveInv(g, w, v, ldsA, ldsB)
    requires v.stage.Mfma? && v.stage.j < g.Total() && v' == Multiply(g, w, v)
    ensures ShapeOf(g, v') && WaveInv(g, w, v', ldsA, ldsB)
  {
    assert v' == v.(stage := v'.stage, acc := v'.acc) && |v'.acc| == g.c.elems;
    StageLoads(g, w, v, v');
    SameTile(g, w, v, ldsA, ldsB, v');
    MultiplySums(g, w, v);
  }

  lemma CallEnds(g: Machine, w: nat, v: Wave, ldsA: seq<Slice>, ldsB: seq<Slice>, v': Wave)
    requires g.Valid() && ShapeOf(g, v) && |ldsA| == g.c.a.cells && |ldsB| == g.c.b.cells && WaveInv(g, w, v, ldsA, ldsB)
    requires v.stage == Mfma(g.Total()) && ShapeOf(g, v')
    requires v' == if g.Hot(v.round) then v.(aBase := v.aBase + g.c.tile, bBase := v.bBase + g.c.tile, stage := AtBarrierB)
                   else v.(stage := Done)
    ensures WaveInv(g, w, v', ldsA, ldsB)
  {
    SameLoads(g, w, v, v');
    SameTile(g, w, v, ldsA, ldsB, v');
    CallSums(g, w, v, v');
  }

  lemma StoreFirst(g: Machine, w: nat, v: Wave, ldsA: seq<Slice>, ldsB: seq<Slice>, v': Wave)
    requires g.Valid() && ShapeOf(g, v) && |ldsA| == g.c.a.cells && |ldsB| == g.c.b.cells && WaveInv(g, w, v, ldsA, ldsB)
    requires v.stage == FirstStore && ShapeOf(g, v')
    requires v' == v.(stage := SecondFence, stores := SideStores(g, g.c.aFirst, Buf(v, g.c.aFirst)))
    ensures WaveInv(g, w, v', ldsA, ldsB)
  {
    StageLoads(g, w, v, v');
    FirstStoreTile(g, w, v, ldsA, ldsB, v');
    SameSums(g, w, v, v');
  }

  lemma StoreSecond(g: Machine, w: nat, v: Wave, ldsA: seq<Slice>, ldsB: seq<Slice>)
    requires g.Valid() && ShapeOf(g, v) && |ldsA| == g.c.a.cells && |ldsB| == g.c.b.cells && WaveInv(g, w, v, ldsA, ldsB)
    requires v.stage == SecondStore && ShapeOf(g, NextRound(g, v))
    ensures WaveInv(g, w, NextRound(g, v), ldsA, ldsB)
  {
    NextRoundLoads(g, w, v);
    SecondStoreTile(g, w, v, ldsA, ldsB, NextRound(g, v));
    NextRoundSums(g, w, v, NextRound(g, v));
  }

  lemma NextRoundShape(g: Machine, v: Wave)
    requires g.Valid() && ShapeOf(g, v) && v.stage == SecondStore
    ensures ShapeOf(g, NextRound(g, v))
  {
  }

  /** The fences that let a wave pass. */
  lemma FenceWave(g: Machine, w: nat, v: Wave, ldsA: seq<Slice>, ldsB: seq<Slice>, v': Wave)
    requires g.Valid() && ShapeOf(g, v) && |ldsA| == g.c.a.cells && |ldsB| == g.c.b.cells && WaveInv(g, w, v, ldsA, ldsB)
    requires Ready(g, v) && ShapeOf(g, v') && v' == v.(stage := v'.stage)
    requires (v.stage == FirstFence && v'.stage == FirstStore) || (v.stage == SecondFence && v'.stage == SecondStore)
          || (v.stage == SstFence && v'.stage == AtBarrierA) || (v.stage == SldFence && v'.stage == Mfma(0))
    ensures WaveInv(g, w, v', ldsA, ldsB)
  {
    StageLoads(g, w, v, v');
    SameTile(g, w, v, ldsA, ldsB, v');
    if v.stage == SldFence { CallSums(g, w, v, v'); } else { SameSums(g, w, v, v'); }
  }

  lemma AdvanceLoads(g: Machine, w: nat, v: Wave, ldsA: seq<Slice>, ldsB: seq<Slice>)
    requires g.Valid() && ShapeOf(g, v) && |ldsA| == g.c.a.cells && |ldsB| == g.c.b.cells && WaveInv(g, w, v, ldsA, ldsB)
    requires v.stage.Issue?
    ensures ShapeOf(g, AdvanceWave(g, w, v)) && WaveInv(g, w, AdvanceWave(g, w, v), ldsA, ldsB)
  {
    if g.Hot(v.round) && v.stage.r < g.c.T() {
      IssueWave(g, w, v, ldsA, ldsB);
    } else {
      IssueEnds(g, w, v, ldsA, ldsB, AdvanceWave(g, w, v));
    }
  }

  lemma AdvanceProducts(g: Machine, w: nat, v: Wave, ldsA: seq<Slice>, ldsB: seq<Slice>)
    requires g.Valid() && ShapeOf(g, v) && |ldsA| == g.c.a.cells && |ldsB| == g.c.b.cells && WaveInv(g, w, v, ldsA, ldsB)
    requires v.stage.Mfma?
    ensures ShapeOf(g, AdvanceWave(g, w, v)) && WaveInv(g, w, AdvanceWave(g, w, v), ldsA, ldsB)
  {
    if v.stage.j < g.Total() {
      ProductWave(g, w, v, ldsA, ldsB, AdvanceWave(g, w, v));
    } else {
      CallEnds(g, w, v, ldsA, ldsB, AdvanceWave(g, w, v));
    }
  }

  lemma AdvanceStores(g: Machine, w: nat, v: Wave, ldsA: seq<Slice>, ldsB: seq<Slice>)
    requires g.Valid() && ShapeOf(g, v) && |ldsA| == g.c.a.cells && |ldsB| == g.c.b.cells && WaveInv(g, w, v, ldsA, ldsB)
    requires v.stage == FirstStore || v.stage == SecondStore
    ensures ShapeOf(g, AdvanceWave(g, w, v)) && WaveInv(g, w, AdvanceWave(g, w, v), ldsA, ldsB)
  {
    if v.stage == FirstStore {
      StoreFirst(g, w, v, ldsA, ldsB, AdvanceWave(g, w, v));
    } else {
      NextRoundShape(g, v);
      StoreSecond(g, w, v, ldsA, ldsB);
    }
  }

  lemma AdvanceFences(g: Machine, w: nat, v: Wave, ldsA: seq<Slice>, ldsB: seq<Slice>)
    requires g.Valid() && ShapeOf(g, v) && |ldsA| == g.c.a.cells && |ldsB| == g.c.b.cells && WaveInv(g, w, v, ldsA, ldsB)
    requires Ready(g, v)
    requires v.stage == FirstFence || v.stage == SecondFence || v.stage == SstFence || v.stage == SldFence || v.stage == LdsRead
    ensures ShapeOf(g, AdvanceWave(g, w, v)) && WaveInv(g, w, AdvanceWave(g, w, v), ldsA, ldsB)
  {
    if v.stage == LdsRead {
      ReadWave(g, w, v, ldsA, ldsB, AdvanceWave(g, w, v));
    } else {
      FenceWave(g, w, v, ldsA, ldsB, AdvanceWave(g, w, v));
    }
  }

  lemma AdvanceKeeps(g: Machine, w: nat, v: Wave, ldsA: seq<Slice>, ldsB: seq<Slice>)
    requires g.Valid() && ShapeOf(g, v) && |ldsA| == g.c.a.cells && |ldsB| == g.c.b.cells && WaveInv(g, w, v, ldsA, ldsB)
    requires Ready(g, v)
    ensures ShapeOf(g, AdvanceWave(g, w, v)) && WaveInv(g, w, AdvanceWave(g, w, v), ldsA, ldsB)
  {
    match v.stage
    case Issue(_) => AdvanceLoads(g, w, v, ldsA, ldsB);
    case Mfma(_) => AdvanceProducts(g, w, v, ldsA, ldsB);
    case FirstStore | SecondStore => AdvanceStores(g, w, v, ldsA, ldsB);
    case _ => AdvanceFences(g, w, v, ldsA, ldsB);
  }

  lemma AdvanceEpoch(g: Machine, w: nat, v: Wave)
    requires g.Valid() && ShapeOf(g, v) && Ready(g, v)
    ensures Epoch(AdvanceWave(g, w, v)) == Epoch(v)
  {
  }

  lemma RetireKeeps(g: Machine, w: nat, v: Wave, ldsA: seq<Slice>, ldsB: seq<Slice>, v': Wave)
    requires g.Valid() && ShapeOf(g, v) && |ldsA| == g.c.a.cells && |ldsB| == g.c.b.cells && WaveInv(g, w, v, ldsA, ldsB)
    requires v.queue != [] && v' == RetireWave(g, w, v)
    ensures ShapeOf(g, v') && WaveInv(g, w, v', ldsA, ldsB) && Epoch(v') == Epoch(v)
  {
    RetireLoads(g, w, v);
    RegistersTile(g, w, v, ldsA, ldsB, v');
    SameSums(g, w, v, v');
  }

  lemma LandKeeps(g: Machine, w: nat, v: Wave, ldsA: seq<Slice>, ldsB: seq<Slice>, u: nat, key: Key, snapshot: seq<Slice>,
                  v': Wave, ldsA': seq<Slice>, ldsB': seq<Slice>)
    requires g.Valid() && ShapeOf(g, v) && |ldsA| == g.c.a.cells && |ldsB| == g.c.b.cells && WaveInv(g, w, v, ldsA, ldsB)
    requires u == w ==> key in v.stores && snapshot == v.stores[key]
    requires |snapshot| == g.c.Side(key.isA).cells && v' == if u == w then v.(stores := v.stores - {key}) else v
    requires ldsA' == if key.isA then LandIn(g.c.a, ldsA, u, key.i, snapshot) else ldsA
    requires ldsB' == if key.isA then ldsB else LandIn(g.c.b, ldsB, u, key.i, snapshot)
    ensures ShapeOf(g, v') && WaveInv(g, w, v', ldsA', ldsB') && Epoch(v') == Epoch(v)
  {
    LandRest(g, w, v, v');
    LandTile(g, w, v, ldsA, ldsB, u, key, snapshot, v', ldsA', ldsB');
  }

  /** Which stores are under way matters to neither the registers nor the sums. */
  lemma LandRest(g: Machine, w: nat, v: Wave, v': Wave)
    requires g.Valid() && ShapeOf(g, v) && LoadsInv(g, w, v) && SumsInv(g, w, v) && v' == v.(stores := v'.stores)
    requires forall key :: key in v'.stores ==> key in v.stores && v'.stores[key] == v.stores[key]
    ensures ShapeOf(g, v') && LoadsInv(g, w, v') && SumsInv(g, w, v') && Epoch(v') == Epoch(v)
  {
    assert ShapeOf(g, v');
    SameLoads(g, w, v, v');
    SameSums(g, w, v, v');
  }

  lemma ArriveKeeps(g: Machine, w: nat, v: Wave, ldsA: seq<Slice>, ldsB: seq<Slice>, isA: bool, f: nat, lds: seq<Slice>, v': Wave)
    requires g.Valid() && Sound(g, w, v, ldsA, ldsB)
    requires v.stage == SldFence && v.round > 0 && (if isA then f < g.FragsA() else f < g.FragsB())
    requires TileHolds(g.c, isA, lds, g.Start(v.round - 1)) && v' == ArriveWave(v, isA, f, lds)
    ensures Sound(g, w, v', ldsA, ldsB) && Epoch(v') == Epoch(v)
  {
    assert ShapeOf(g, v');
    ArriveTile(g, w, v, ldsA, ldsB, isA, f, lds, v');
    SameLoads(g, w, v, v');
    SameSums(g, w, v, v');
  }

  lemma PassKeeps(g: Machine, w: nat, v: Wave, ldsA: seq<Slice>, ldsB: seq<Slice>)
    requires g.Valid() && ShapeOf(g, v) && |ldsA| == g.c.a.cells && |ldsB| == g.c.b.cells && WaveInv(g, w, v, ldsA, ldsB)
    requires AtBarrier(v)
    ensures ShapeOf(g, PassBarrier(v)) && WaveInv(g, w, PassBarrier(v), ldsA, ldsB)
    ensures Epoch(PassBarrier(v)) == Epoch(v) + 1
  {
    var v' := PassBarrier(v);
    assert ShapeOf(g, v');
    SameLoads(g, w, v, v');
    SameTile(g, w, v, ldsA, ldsB, v');
    SameSums(g, w, v, v');
  }

  // ---------------------------------------------------------------- steps

  lemma WaveHolds(g: Machine, s: State, w: nat)
    requires Inv(g, s) && w < g.c.waves
    ensures g.Valid() && ShapeOf(g, s.waves[w]) && WaveInv(g, w, s.waves[w], s.ldsA, s.ldsB)
  {
  }

  /** A change to one wave that keeps its invariant and passes no barrier. */
  lemma OneWave(g: Machine, s: State, w: nat, v: Wave)
    requires Inv(g, s) && w < g.c.waves && Sound(g, w, v, s.ldsA, s.ldsB) && Epoch(v) == Epoch(s.waves[w])
    ensures Inv(g, s.(waves := s.waves[w := v]))
  {
  }

  lemma LandInv(g: Machine, s: State, w: nat, key: Key)
    requires Inv(g, s) && Enabled(g, s, Land(w, key))
    ensures Inv(g, Apply(g, s, Land(w, key)))
  {
    var s' := Apply(g, s, Land(w, key));
    var snapshot := s.waves[w].stores[key];
    forall u | 0 <= u < g.c.waves
      ensures ShapeOf(g, s'.waves[u]) && WaveInv(g, u, s'.waves[u], s'.ldsA, s'.ldsB) && Epoch(s'.waves[u]) == Epoch(s.waves[u])
    {
      LandKeeps(g, u, s.waves[u], s.ldsA, s.ldsB, w, key, snapshot, s'.waves[u], s'.ldsA, s'.ldsB);
    }
  }

  /** A wave that reads finds both tiles complete. */
  lemma ReadingTiles(g: Machine, s: State, w: nat, isA: bool)
    requires Inv(g, s) && w < g.c.waves && s.waves[w].stage == SldFence
    ensures s.waves[w].round > 0 && TileHolds(g.c, isA, Lds(s, isA), g.Start(s.waves[w].round - 1))
    ensures forall u :: 0 <= u < g.c.waves ==> s.waves[u].stores == map[]
  {
    WaveHolds(g, s, w);
    forall u | 0 <= u < g.c.waves ensures TileInv(g, u, s.waves[u], s.ldsA, s.ldsB) { WaveHolds(g, s, u); }
    TilesComplete(g, s, w, isA);
  }

  lemma OnlyReadersFetch(g: Machine, s: State, w: nat, isA: bool, f: nat)
    requires Inv(g, s) && Enabled(g, s, Arrive(w, isA, f))
    ensures s.waves[w].stage == SldFence
  {
    WaveHolds(g, s, w);
  }

  lemma BarrierInv(g: Machine, s: State)
    requires Inv(g, s) && Enabled(g, s, Barrier)
    ensures Inv(g, Apply(g, s, Barrier))
  {
    var s' := Apply(g, s, Barrier);
    forall w | 0 <= w < g.c.waves
      ensures ShapeOf(g, s'.waves[w]) && WaveInv(g, w, s'.waves[w], s'.ldsA, s'.ldsB)
           && Epoch(s'.waves[w]) == Epoch(s.waves[w]) + 1
    {
      PassKeeps(g, w, s.waves[w], s.ldsA, s.ldsB);
    }
  }

  lemma AdvanceInv(g: Machine, s: State, w: nat)
    requires Inv(g, s) && Enabled(g, s, Advance(w))
    ensures Inv(g, Apply(g, s, Advance(w)))
  {
    AdvanceKeeps(g, w, s.waves[w], s.ldsA, s.ldsB);
    AdvanceEpoch(g, w, s.waves[w]);
    OneWave(g, s, w, AdvanceWave(g, w, s.waves[w]));
  }

  lemma RetireInv(g: Machine, s: State, w: nat)
    requires Inv(g, s) && Enabled(g, s, Retire(w))
    ensures Inv(g, Apply(g, s, Retire(w)))
  {
    RetireKeeps(g, w, s.waves[w], s.ldsA, s.ldsB, RetireWave(g, w, s.waves[w]));
    OneWave(g, s, w, RetireWave(g, w, s.waves[w]));
  }

  lemma ArriveInv(g: Machine, s: State, w: nat, isA: bool, f: nat)
    requires Inv(g, s) && Enabled(g, s, Arrive(w, isA, f))
    ensures Inv(g, Apply(g, s, Arrive(w, isA, f)))
  {
    var lds := Lds(s, isA);
    Fetching(g, s, w, isA, f);
    var v' := ArriveWave(s.waves[w], isA, f, lds);
    ArriveKeeps(g, w, s.waves[w], s.ldsA, s.ldsB, isA, f, lds, v');
    OneWave(g, s, w, v');
  }

  /** A read that arrives is one of a reading wave, and takes from a complete tile. */
  lemma Fetching(g: Machine, s: State, w: nat, isA: bool, f: nat)
    requires Inv(g, s) && Enabled(g, s, Arrive(w, isA, f))
    ensures w < g.c.waves && Sound(g, w, s.waves[w], s.ldsA, s.ldsB) && (if isA then f < g.FragsA() else f < g.FragsB())
    ensures s.waves[w].stage == SldFence && s.waves[w].round > 0
    ensures TileHolds(g.c, isA, Lds(s, isA), g.Start(s.waves[w].round - 1))
  {
    OnlyReadersFetch(g, s, w, isA, f);
    ReadingTiles(g, s, w, isA);
    WaveHolds(g, s, w);
  }

  lemma StepInv(g: Machine, s: State, step: Step)
    requires Inv(g, s) && Enabled(g, s, step)
    ensures Inv(g, Apply(g, s, step))
  {
    match step
    case Advance(w) => AdvanceInv(g, s, w);
    case Retire(w) => RetireInv(g, s, w);
    case Land(w, key) => LandInv(g, s, w, key);
    case Arrive(w, isA, f) => ArriveInv(g, s, w, isA, f);
    case Barrier => BarrierInv(g, s);
  }

  // ---------------------------------------------------------------- runs

  ghost predicate Legal(g: Machine, s: State, run: seq<Step>)
    requires Shape(g, s)
    decreases |run|
  {
    run == [] || (Enabled(g, s, run[0]) && Shape(g, Apply(g, s, run[0])) && Legal(g, Apply(g, s, run[0]), run[1..]))
  }

  ghost function After(g: Machine, s: State, run: seq<Step>): (end: State)
    requires Shape(g, s) && Legal(g, s, run)
    ensures Shape(g, end)
    decreases |run|
  {
    if run == [] then s else After(g, Apply(g, s, run[0]), run[1..])
  }

  lemma {:induction false} RunInv(g: Machine, s: State, run: seq<Step>)
    requires Inv(g, s) && Legal(g, s, run)
    ensures Inv(g, After(g, s, run))
    decreases |run|
  {
    if run != [] {
      StepInv(g, s, run[0]);
      RunInv(g, Apply(g, s, run[0]), run[1..]);
    }
  }

  ghost predicate Reachable(g: Machine, s: State): (r: bool)
    ensures r ==> Shape(g, s)
  {
    exists s0: State, run: seq<Step> :: Initial(g, s0) && Legal(g, s0, run) && s == After(g, s0, run)
  }

  lemma ReachableInv(g: Machine, s: State)
    requires Reachable(g, s)
    ensures Inv(g, s)
  {
    var s0: State, run: seq<Step> :| Initial(g, s0) && Legal(g, s0, run) && s == After(g, s0, run);
    InitialInv(g, s0);
    RunInv(g, s0, run);
  }

  // ---------------------------------------------------------------- main results

  /** In every run, a finished wave's in-range elements are the products over k < K, whatever K. */
  lemma FinalProduct(g: Machine, s: State, e: nat)
    requires Reachable(g, s) && e < g.c.elems && InRange(g, e) && g.waveOf(e) < g.c.waves && s.waves[g.waveOf(e)].stage == Done
    ensures s.waves[g.waveOf(e)].acc[e] == Dot(g.c, g.c.rowOf(e), g.c.colOf(e), g.c.K())
  {
    ReachableInv(g, s);
    var w := g.waveOf(e);
    WaveHolds(g, s, w);
    assert IsProduct(g, w, s.waves[w].acc, e, Covered(g, s.waves[w], g.c.frag(e)));
    PastK(g.c, g.c.rowOf(e), g.c.colOf(e), g.Start(g.calls));
  }

  /** In every run, each load in flight reads exactly the vectors of its window that lie wholly inside the matrix. */
  lemma LoadsStayInside(g: Machine, s: State, w: nat, j: nat)
    requires Reachable(g, s) && w < g.c.waves && j < |s.waves[w].queue|
    ensures LoadsInside(g.c, s.waves[w].queue[j])
  {
    ReachableInv(g, s);
    WaveHolds(g, s, w);
    var v := s.waves[w];
    FlatWavesSums.StartIsProduct(g, v.round);
    LoadInside(g.c, v.queue[j], v.round, g.Start(v.round), Issued(g, v) - |v.queue| + j);
  }

  /** No wave has an LDS store under way while another reads, and what it reads is complete. */
  lemma NoStoreWhileReading(g: Machine, s: State, w: nat, u: nat, isA: bool)
    requires Reachable(g, s) && w < g.c.waves && u < g.c.waves && s.waves[w].stage == SldFence
    ensures s.waves[u].stores == map[] && s.waves[w].round > 0
    ensures TileHolds(g.c, isA, Lds(s, isA), g.Start(s.waves[w].round - 1))
  {
    ReachableInv(g, s);
    ReadingTiles(g, s, w, isA);
  }

  /** A wave that is neither at a barrier nor done can step, or one of its accesses can complete. */
  lemma WaveProgress(g: Machine, s: State, w: nat)
    requires Shape(g, s) && w < g.c.waves && !AtBarrier(s.waves[w]) && s.waves[w].stage != Done
    ensures exists step: Step :: Enabled(g, s, step)
  {
    var v := s.waves[w];
    if Ready(g, v) {
      assert Enabled(g, s, Advance(w));
    } else if v.stage == SstFence {
      var key :| key in v.stores;
      assert Enabled(g, s, Land(w, key));
    } else if v.stage == SldFence {
      if f: nat :| f < |v.fetchA| && v.fetchA[f] {
        assert Enabled(g, s, Arrive(w, true, f));
      } else {
        var f: nat :| f < |v.fetchB| && v.fetchB[f];
        assert Enabled(g, s, Arrive(w, false, f));
      }
    } else {
      assert Enabled(g, s, Retire(w));
    }
  }

  lemma DoneTogether(g: Machine, v: Wave, u: Wave)
    requires ShapeOf(g, v) && ShapeOf(g, u) && v.stage == Done && Epoch(u) == Epoch(v)
    ensures !AtBarrier(u)
  {
  }

  /** No deadlock: until all waves are done, some step is enabled. */
  lemma Progress(g: Machine, s: State)
    requires Reachable(g, s)
    ensures (forall w :: 0 <= w < g.c.waves ==> s.waves[w].stage == Done) || exists step: Step :: Enabled(g, s, step)
  {
    ReachableInv(g, s);
    if w :| 0 <= w < g.c.waves && !AtBarrier(s.waves[w]) && s.waves[w].stage != Done {
      WaveProgress(g, s, w);
    } else if w :| 0 <= w < g.c.waves && s.waves[w].stage == Done {
      forall u | 0 <= u < g.c.waves ensures s.waves[u].stage == Done {
        DoneTogether(g, s.waves[w], s.waves[u]);
      }
    } else {
      assert Enabled(g, s, Barrier);
    }
  }
}
