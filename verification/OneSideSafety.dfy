/** Whole runs of the one-sided pipeline. */
module OneSideSafety {
  import opened Arith
  import opened LoadOrder
  import opened PipelineOneSide
  import opened OneSideLoads
  import opened OneSideTile
  import opened OneSideSums

  ghost predicate WaveInv(c: Config, w: nat, v: Wave, lds: seq<Slice>)
    requires c.yRepeat > 0 && c.Plane() > 0 && |lds| == c.cells && ShapeOf(c, v)
  {
    LoadsInv(c, v) && TileInv(c, w, v, lds) && SumsInv(c, w, v)
  }

  ghost predicate Inv(c: Config, s: State) {
    && Shape(c, s) && Plan(c) && c.Plane() > 0 && c.Layout()
    && (forall w :: 0 <= w < c.waves ==> WaveInv(c, w, s.waves[w], s.lds))
    && (forall w, u :: 0 <= w < c.waves && 0 <= u < c.waves ==> Epoch(s.waves[w]) == Epoch(s.waves[u]))
  }

  lemma ValidPlan(c: Config)
    requires c.Valid()
    ensures Plan(c) && c.Plane() > 0
  {
    MulLt(0, c.xRepeat, c.kRepeat);
    MulLt(0, c.xRepeat, c.yRepeat);
  }

  lemma InitialWave(c: Config, s: State, w: nat)
    requires Initial(c, s) && c.Plane() > 0 && Plan(c) && w < c.waves
    ensures ShapeOf(c, s.waves[w]) && WaveInv(c, w, s.waves[w], s.lds)
  {
    var v := s.waves[w];
    assert Retired(c, v) == 0;
    assert forall t: nat, i: nat :: !c.order.XLatest(t, i, 0) && !c.order.YLatest(t, i, 0);
  }

  lemma InitialInv(c: Config, s: State)
    requires Initial(c, s)
    ensures Inv(c, s)
  {
    ValidPlan(c);
    forall w | 0 <= w < c.waves ensures ShapeOf(c, s.waves[w]) && WaveInv(c, w, s.waves[w], s.lds) {
      InitialWave(c, s, w);
    }
  }

  /** A change to one wave that keeps its invariant and passes no barrier. */
  lemma OneWave(c: Config, s: State, w: nat, v: Wave)
    requires Inv(c, s) && w < c.waves
    requires ShapeOf(c, v) && WaveInv(c, w, v, s.lds) && Epoch(v) == Epoch(s.waves[w])
    ensures Inv(c, s.(waves := s.waves[w := v]))
  {
  }

  lemma WaveHolds(c: Config, s: State, w: nat)
    requires Inv(c, s) && w < c.waves
    ensures c.Valid() && ShapeOf(c, s.waves[w])
    ensures LoadsInv(c, s.waves[w]) && TileInv(c, w, s.waves[w], s.lds) && SumsInv(c, w, s.waves[w])
  {
    assert WaveInv(c, w, s.waves[w], s.lds);
  }

  lemma AdvanceInv(c: Config, s: State, w: nat)
    requires Inv(c, s) && Enabled(c, s, Advance(w))
    ensures Inv(c, Apply(c, s, Advance(w)))
  {
    var v := s.waves[w];
    WaveHolds(c, s, w);
    AdvanceLoads(c, w, v);
    AdvanceTile(c, w, v, s.lds);
    AdvanceSums(c, w, v);
    AdvanceEpoch(c, w, v);
    OneWave(c, s, w, AdvanceWave(c, w, v));
  }

  lemma AdvanceEpoch(c: Config, w: nat, v: Wave)
    requires c.Valid() && ShapeOf(c, v) && Ready(c, v)
    ensures Epoch(AdvanceWave(c, w, v)) == Epoch(v)
  {
  }

  lemma RetireInv(c: Config, s: State, w: nat)
    requires Inv(c, s) && Enabled(c, s, Retire(w))
    ensures Inv(c, Apply(c, s, Retire(w)))
  {
    var v := s.waves[w];
    WaveHolds(c, s, w);
    RetireLoads(c, v);
    RetireTile(c, w, v, s.lds);
    SameSums(c, w, v, RetireWave(v));
    OneWave(c, s, w, RetireWave(v));
  }

  lemma LandWave(c: Config, w: nat, v: Wave, lds: seq<Slice>, u: nat, i: nat, value: Slice, v': Wave, lds': seq<Slice>)
    requires c.yRepeat > 0 && c.Plane() > 0 && ShapeOf(c, v) && |lds| == c.cells && WaveInv(c, w, v, lds)
    requires u == w ==> i in v.stores && value == v.stores[i]
    requires lds' == LandIn(c, lds, u, i, value) && v' == if u == w then v.(stores := v.stores - {i}) else v
    ensures ShapeOf(c, v') && WaveInv(c, w, v', lds') && Epoch(v') == Epoch(v)
  {
    LandTile(c, w, v, lds, u, i, value);
    SameSums(c, w, v, v');
    assert Retired(c, v') == Retired(c, v);
  }

  lemma LandInv(c: Config, s: State, w: nat, i: nat)
    requires Inv(c, s) && Enabled(c, s, Land(w, i))
    ensures Inv(c, Apply(c, s, Land(w, i)))
  {
    var s' := Apply(c, s, Land(w, i));
    forall u | 0 <= u < c.waves
      ensures ShapeOf(c, s'.waves[u]) && WaveInv(c, u, s'.waves[u], s'.lds) && Epoch(s'.waves[u]) == Epoch(s.waves[u])
    {
      LandWave(c, u, s.waves[u], s.lds, w, i, s.waves[w].stores[i], s'.waves[u], s'.lds);
    }
  }

  lemma SameSums(c: Config, w: nat, v: Wave, v': Wave)
    requires c.yRepeat > 0 && c.Plane() > 0 && ShapeOf(c, v) && SumsInv(c, w, v) && ShapeOf(c, v')
    requires v'.acc == v.acc && v'.round == v.round
    requires v'.stage == v.stage || (AtBarrier(v) && v' == PassBarrier(v))
    ensures SumsInv(c, w, v')
  {
    assert forall q :: 0 <= q < c.Plane() ==> Covered(c, v', q) == Covered(c, v, q);
  }

  lemma ArriveWave(c: Config, w: nat, v: Wave, lds: seq<Slice>, f: nat, v': Wave)
    requires c.yRepeat > 0 && c.Plane() > 0 && ShapeOf(c, v) && |lds| == c.cells && WaveInv(c, w, v, lds)
    requires f < c.Frags() && v.fetching[f] && v.round > 0 && IsTile(c, lds, v.round - 1)
    requires v' == v.(fetching := v.fetching[f := false], yFrag := v.yFrag[f := lds])
    ensures ShapeOf(c, v') && WaveInv(c, w, v', lds) && Epoch(v') == Epoch(v)
  {
    ArriveTile(c, w, v, lds, f);
    SameSums(c, w, v, v');
    assert Retired(c, v') == Retired(c, v);
  }

  lemma ArriveInv(c: Config, s: State, w: nat, f: nat)
    requires Inv(c, s) && Enabled(c, s, Arrive(w, f))
    ensures Inv(c, Apply(c, s, Arrive(w, f)))
  {
    var v' := Apply(c, s, Arrive(w, f)).waves[w];
    WaveHolds(c, s, w);
    ReadingTile(c, s, w);
    ArriveWave(c, w, s.waves[w], s.lds, f, v');
    OneWave(c, s, w, v');
  }

  lemma ReadingTile(c: Config, s: State, w: nat)
    requires Inv(c, s) && w < c.waves && Reading(s.waves[w])
    ensures s.waves[w].round > 0 && IsTile(c, s.lds, s.waves[w].round - 1)
  {
    forall u | 0 <= u < c.waves ensures TileInv(c, u, s.waves[u], s.lds) {
      assert WaveInv(c, u, s.waves[u], s.lds);
    }
    TileComplete(c, s, w);
  }

  lemma BarrierInv(c: Config, s: State)
    requires Inv(c, s) && Enabled(c, s, Barrier)
    ensures Inv(c, Apply(c, s, Barrier))
  {
    var s' := Apply(c, s, Barrier);
    forall w | 0 <= w < c.waves
      ensures ShapeOf(c, s'.waves[w]) && WaveInv(c, w, s'.waves[w], s'.lds)
           && Epoch(s'.waves[w]) == Epoch(s.waves[w]) + 1
    {
      WaveHolds(c, s, w);
      PassLoads(c, s.waves[w]);
      PassTile(c, w, s.waves[w], s.lds);
      SameSums(c, w, s.waves[w], s'.waves[w]);
    }
  }

  lemma StepInv(c: Config, s: State, step: Step)
    requires Inv(c, s) && Enabled(c, s, step)
    ensures Inv(c, Apply(c, s, step))
  {
    match step
    case Advance(w) => AdvanceInv(c, s, w);
    case Retire(w) => RetireInv(c, s, w);
    case Land(w, i) => LandInv(c, s, w, i);
    case Arrive(w, f) => ArriveInv(c, s, w, f);
    case Barrier => BarrierInv(c, s);
  }

  // ---------------------------------------------------------------- runs

  ghost predicate Legal(c: Config, s: State, run: seq<Step>)
    requires Shape(c, s)
    decreases |run|
  {
    run == [] || (Enabled(c, s, run[0]) && Shape(c, Apply(c, s, run[0])) && Legal(c, Apply(c, s, run[0]), run[1..]))
  }

  ghost function After(c: Config, s: State, run: seq<Step>): (end: State)
    requires Shape(c, s) && Legal(c, s, run)
    ensures Shape(c, end)
    decreases |run|
  {
    if run == [] then s else After(c, Apply(c, s, run[0]), run[1..])
  }

  lemma {:induction false} RunInv(c: Config, s: State, run: seq<Step>)
    requires Inv(c, s) && Legal(c, s, run)
    ensures Inv(c, After(c, s, run))
    decreases |run|
  {
    if run != [] {
      StepInv(c, s, run[0]);
      RunInv(c, Apply(c, s, run[0]), run[1..]);
    }
  }

  ghost predicate Reachable(c: Config, s: State): (r: bool)
    ensures r ==> Shape(c, s)
  {
    exists s0: State, run: seq<Step> :: Initial(c, s0) && Shape(c, s0) && Legal(c, s0, run) && s == After(c, s0, run)
  }

  lemma ReachableInv(c: Config, s: State)
    requires Reachable(c, s)
    ensures Inv(c, s)
  {
    var s0: State, run: seq<Step> :| Initial(c, s0) && Shape(c, s0) && Legal(c, s0, run) && s == After(c, s0, run);
    InitialInv(c, s0);
    RunInv(c, s0, run);
  }

  // ---------------------------------------------------------------- main results

  /** When all waves are done, every accumulator element is the full product over K = kIters * tile. */
  lemma FinalProduct(c: Config, s: State, w: nat, q: nat, e: nat)
    requires Reachable(c, s) && w < c.waves && s.waves[w].stage == Done
    requires q < c.Plane() && e < c.elems
    ensures s.waves[w].acc[q][e]
         == Dot(c, c.xRow(w, q / c.yRepeat, e), c.yCol(w, q % c.yRepeat, e), |c.calls| * c.order.tile)
  {
    ReachableInv(c, s);
    StartIsProduct(c.order, |c.calls|);
    WaveHolds(c, s, w);
    assert Holds(c, w, q, s.waves[w].acc[q], Covered(c, s.waves[w], q));
  }

  predicate Targets(load: Load, buf: nat, i: nat) {
    load.ToX? && load.buf == buf && load.i == i
  }

  /** Call t multiplies tile t: it is in the call's X buffer, with no load under way to that register, and in every
      word of the fragment. */
  ghost predicate OperandsReady(c: Config, v: Wave, i: nat, f: nat)
    requires ShapeOf(c, v) && v.round > 0 && i < c.order.nx && f < c.Frags()
  {
    var t := v.round - 1;
    && c.calls[t].cur == t % 2 && v.xBuf[t % 2][i] == From(t * c.order.tile)
    && (forall j :: 0 <= j < |v.queue| ==> !Targets(v.queue[j], t % 2, i))
    && (forall cell :: 0 <= cell < c.cells && c.Written(cell) ==> v.yFrag[f][cell] == From(t * c.order.tile))
  }

  /** A wave about to multiply finds one and the same tile in its X buffer and in every fragment. */
  lemma OperandsMatch(c: Config, s: State, w: nat, i: nat, f: nat)
    requires Reachable(c, s) && w < c.waves && s.waves[w].stage.Mfma? && i < c.order.nx && f < c.Frags()
    ensures s.waves[w].round > 0 && OperandsReady(c, s.waves[w], i, f)
  {
    ReachableInv(c, s);
    WaveHolds(c, s, w);
    WaveOperands(c, s.waves[w], i, f);
  }

  lemma WaveOperands(c: Config, v: Wave, i: nat, f: nat)
    requires Plan(c) && ShapeOf(c, v) && LoadsInv(c, v) && FragsInv(c, v) && v.stage.Mfma?
    requires i < c.order.nx && f < c.Frags()
    ensures v.round > 0 && OperandsReady(c, v, i, f)
  {
    XOperand(c, v, i);
    var t := v.round - 1;
    StartIsProduct(c.order, t);
    forall j | 0 <= j < |v.queue| ensures !Targets(v.queue[j], t % 2, i) {
      OutstandingAreNext(c, v, j);
    }
    assert IsTile(c, v.yFrag[f], t);
  }

  /** During a call only the next tile's loads are under way. */
  lemma OutstandingAreNext(c: Config, v: Wave, j: nat)
    requires Plan(c) && ShapeOf(c, v) && LoadsInv(c, v) && v.stage.Mfma? && j < |v.queue|
    ensures v.round > 0 && (v.queue[j].ToX? ==> v.queue[j].buf == v.round % 2)
  {
    var r := Retired(c, v) + j - c.order.Before(v.round);
    assert v.queue[j] == c.order.TileLoad(v.round, r);
  }

  /** The tile is not overwritten while it is read. */
  lemma NoStoreWhileReading(c: Config, s: State, w: nat, u: nat)
    requires Reachable(c, s) && w < c.waves && u < c.waves && Reading(s.waves[w])
    ensures s.waves[u].stores == map[] && s.waves[w].round > 0 && IsTile(c, s.lds, s.waves[w].round - 1)
  {
    ReachableInv(c, s);
    ReadingTile(c, s, w);
    WaveHolds(c, s, u);
    assert Epoch(s.waves[w]) == Epoch(s.waves[u]);
  }

  /** A wave that is neither at a barrier nor done can step. */
  lemma WaveProgress(c: Config, s: State, w: nat)
    requires Inv(c, s) && w < c.waves && !AtBarrier(s.waves[w]) && s.waves[w].stage != Done
    ensures exists step: Step :: step != Barrier && Enabled(c, s, step)
  {
    var v := s.waves[w];
    if Ready(c, v) {
      assert Enabled(c, s, Advance(w));
    } else if v.stage == SstFence {
      var i :| i in v.stores;
      assert Enabled(c, s, Land(w, i));
    } else if v.stage == SldFence {
      var f :| 0 <= f < |v.fetching| && v.fetching[f];
      assert Enabled(c, s, Arrive(w, f));
    } else {
      assert Enabled(c, s, Retire(w));
    }
  }

  lemma DoneTogether(c: Config, v: Wave, u: Wave)
    requires ShapeOf(c, v) && ShapeOf(c, u) && v.stage == Done && Epoch(u) == Epoch(v)
    ensures !AtBarrier(u)
  {
  }

  /** No deadlock: until all waves are done, some step is enabled. */
  lemma Progress(c: Config, s: State)
    requires Reachable(c, s)
    ensures (forall w :: 0 <= w < c.waves ==> s.waves[w].stage == Done) || exists step: Step :: Enabled(c, s, step)
  {
    ReachableInv(c, s);
    if w :| 0 <= w < c.waves && !AtBarrier(s.waves[w]) && s.waves[w].stage != Done {
      WaveProgress(c, s, w);
    } else if w :| 0 <= w < c.waves && s.waves[w].stage == Done {
      forall u | 0 <= u < c.waves ensures s.waves[u].stage == Done {
        DoneTogether(c, s.waves[w], s.waves[u]);
      }
    } else {
      assert Enabled(c, s, Barrier);
    }
  }
}
