/** What every step of the one-sided pipeline keeps: the loads of one wave. */
module OneSideLoads {
  import opened LoadOrder
  import opened PipelineOneSide

  /** How many loads a wave has issued. */
  function Issued(c: Config, v: Wave): nat
    requires v.round <= |c.calls|
  {
    if v.round == |c.calls| then c.order.Before(v.round)
    else if v.stage.Issue? then c.order.Before(v.round) + v.stage.r
    else c.order.Before(v.round + 1)
  }

  /** How many of them have completed. */
  function Retired(c: Config, v: Wave): int
    requires v.round <= |c.calls|
  {
    Issued(c, v) - |v.queue|
  }

  predicate Consumed(v: Wave) { v.stage == AtBarrierB || v.stage == YFence || v.stage == Store }

  /** The windows: in the prologue each side moves after its own loads. */
  ghost predicate Windows(c: Config, v: Wave) {
    var o := c.order;
    if v.round == 0 && v.stage.Issue? then
      && v.xBase == (if v.stage.r >= (if o.xFirst then o.nx else o.T()) then o.tile else 0)
      && v.yBase == (if v.stage.r >= (if o.xFirst then o.T() else o.ny) then o.tile else 0)
    else
      v.xBase == v.yBase == o.Start(if Consumed(v) && v.round > 0 then v.round + 1 else if v.round == 0 then 1 else v.round)
  }

  /** How many loads the fences passed so far have waited for: the operands of the round's product, Y before X;
      at Store, the next Y as well. */
  function Needed(o: Order, round: nat, stage: Stage): nat {
    var y := if o.xFirst then o.T() else o.ny;
    match stage
    case Store => o.Before(round) + y
    case SldFence | Mfma(_) | AtBarrierB | YFence | Done => o.Before(round)
    case _ => if round == 0 then 0 else o.Before(round - 1) + y
  }

  ghost predicate LoadsInv(c: Config, v: Wave)
    requires ShapeOf(c, v)
  {
    && Retired(c, v) >= Needed(c.order, v.round, v.stage)
    && Queued(c.order, v.queue, Retired(c, v))
    && Windows(c, v)
    && XLoaded(c.order, v.xBuf, Retired(c, v)) && YLoaded(c.order, v.yBuf, Retired(c, v))
  }

  ghost predicate Plan(c: Config) {
    && |c.calls| >= 1 && OneCallPerTile(c.calls, |c.calls|)
    && c.order.nx > 0 && c.order.ny > 0
  }

  lemma HotRounds(c: Config, round: nat)
    requires Plan(c) && round <= |c.calls|
    ensures c.Loads(round) <==> round < |c.calls|
    ensures c.NextBuf(round) == round % 2
  {
  }

  lemma IssueOne(c: Config, v: Wave)
    requires Plan(c) && ShapeOf(c, v) && LoadsInv(c, v) && v.stage.Issue?
    requires v.round < |c.calls| && v.stage.r < c.order.T()
    ensures ShapeOf(c, IssueLoad(c, v)) && LoadsInv(c, IssueLoad(c, v))
  {
    HotRounds(c, v.round);
    var v' := IssueLoad(c, v);
    assert Retired(c, v') == Retired(c, v);
    assert v'.queue == v.queue + [c.order.TileLoad(v.round, v.stage.r)];
    Append(c.order, v.queue, Retired(c, v), v.round, v.stage.r);
  }

  lemma AdvanceIssue(c: Config, w: nat, v: Wave)
    requires c.Valid() && Plan(c) && ShapeOf(c, v) && LoadsInv(c, v) && v.stage.Issue?
    ensures ShapeOf(c, AdvanceWave(c, w, v)) && LoadsInv(c, AdvanceWave(c, w, v))
  {
    HotRounds(c, v.round);
    if v.round < |c.calls| && v.stage.r < c.order.T() {
      IssueOne(c, v);
    } else {
      IssueEnds(c, v, AdvanceWave(c, w, v));
    }
  }

  lemma IssueEnds(c: Config, v: Wave, v': Wave)
    requires Plan(c) && ShapeOf(c, v) && LoadsInv(c, v) && v.stage.Issue?
    requires v.round == |c.calls| || v.stage.r == c.order.T()
    requires v' == v.(stage := if v.round == 0 then YFence else SstFence)
    ensures ShapeOf(c, v') && LoadsInv(c, v')
  {
    assert Retired(c, v') == Retired(c, v);
  }

  /** A fence's count leaves only later loads outstanding. */
  lemma AdvanceYFence(c: Config, w: nat, v: Wave)
    requires c.Valid() && Plan(c) && ShapeOf(c, v) && LoadsInv(c, v) && c.YArrived(v) && v.stage == YFence
    ensures ShapeOf(c, AdvanceWave(c, w, v)) && LoadsInv(c, AdvanceWave(c, w, v))
  {
    assert Issued(c, v) == c.order.Before(v.round) + c.order.T();
  }

  lemma AdvanceXFence(c: Config, w: nat, v: Wave)
    requires c.Valid() && Plan(c) && ShapeOf(c, v) && LoadsInv(c, v) && c.XArrived(v) && v.stage == XFence
    ensures ShapeOf(c, AdvanceWave(c, w, v)) && LoadsInv(c, AdvanceWave(c, w, v))
  {
    HotRounds(c, v.round);
    assert Retired(c, AdvanceWave(c, w, v)) == Retired(c, v);
  }

  lemma AdvanceStore(c: Config, w: nat, v: Wave)
    requires c.Valid() && Plan(c) && ShapeOf(c, v) && LoadsInv(c, v) && v.stage == Store
    ensures ShapeOf(c, AdvanceWave(c, w, v)) && LoadsInv(c, AdvanceWave(c, w, v))
  {
    assert Retired(c, AdvanceWave(c, w, v)) == Retired(c, v);
  }

  lemma MultiplyFrame(c: Config, w: nat, v: Wave)
    requires c.Valid() && Plan(c) && ShapeOf(c, v) && v.round > 0 && v.stage.Mfma? && v.stage.j < c.Total()
    ensures var v' := Multiply(c, w, v);
      ShapeOf(c, v') && v' == v.(stage := Mfma(v.stage.j + 1), acc := v'.acc)
  {
    HotRounds(c, v.round);
    var j := v.stage.j;
    MfmaIndices(c, j);
    var ik, i2 := j / c.Plane(), j % c.Plane();
    MultiplyIntoFrame(c, w, v, i2 / c.yRepeat * c.yRepeat + i2 % c.yRepeat, i2 / c.yRepeat * c.kRepeat + ik,
                      ik * c.yRepeat + i2 % c.yRepeat);
  }

  lemma MultiplyIntoFrame(c: Config, w: nat, v: Wave, q: nat, reg: nat, f: nat)
    requires ShapeOf(c, v) && v.round > 0 && v.stage.Mfma? && c.calls[v.round - 1].cur < 2 && v.stage.j < c.Total()
    requires q < c.Plane() && reg < c.order.nx && f < c.Frags()
    ensures var v' := MultiplyInto(c, w, v, q, reg, f);
      ShapeOf(c, v') && v' == v.(stage := Mfma(v.stage.j + 1), acc := v'.acc)
  {
  }

  lemma AdvanceMfma(c: Config, w: nat, v: Wave)
    requires c.Valid() && Plan(c) && ShapeOf(c, v) && LoadsInv(c, v) && v.stage.Mfma?
    ensures ShapeOf(c, AdvanceWave(c, w, v)) && LoadsInv(c, AdvanceWave(c, w, v))
  {
    HotRounds(c, v.round);
    if v.stage.j < c.Total() {
      MultiplyFrame(c, w, v);
      SameLoads(c, v, Multiply(c, w, v));
    } else {
      AdvanceTileEnd(c, w, v);
    }
  }

  lemma SameLoads(c: Config, v: Wave, v': Wave)
    requires ShapeOf(c, v) && LoadsInv(c, v) && ShapeOf(c, v')
    requires v.stage.Mfma? && v'.stage.Mfma? && v' == v.(stage := v'.stage, acc := v'.acc)
    ensures LoadsInv(c, v')
  {
    assert Retired(c, v') == Retired(c, v);
  }

  lemma AdvanceTileEnd(c: Config, w: nat, v: Wave)
    requires c.Valid() && Plan(c) && ShapeOf(c, v) && LoadsInv(c, v) && v.stage == Mfma(c.Total())
    ensures ShapeOf(c, AdvanceWave(c, w, v)) && LoadsInv(c, AdvanceWave(c, w, v))
  {
    HotRounds(c, v.round);
    assert Retired(c, AdvanceWave(c, w, v)) == Retired(c, v);
  }

  lemma AdvanceOther(c: Config, w: nat, v: Wave)
    requires c.Valid() && Plan(c) && ShapeOf(c, v) && LoadsInv(c, v)
    requires v.stage == SstFence || v.stage == LdsRead || v.stage == SldFence
    ensures ShapeOf(c, AdvanceWave(c, w, v)) && LoadsInv(c, AdvanceWave(c, w, v))
  {
  }

  lemma AdvanceLoads(c: Config, w: nat, v: Wave)
    requires c.Valid() && Plan(c) && ShapeOf(c, v) && LoadsInv(c, v) && Ready(c, v)
    ensures ShapeOf(c, AdvanceWave(c, w, v)) && LoadsInv(c, AdvanceWave(c, w, v))
  {
    match v.stage
    case Issue(_) => AdvanceIssue(c, w, v);
    case YFence => AdvanceYFence(c, w, v);
    case XFence => AdvanceXFence(c, w, v);
    case Store => AdvanceStore(c, w, v);
    case Mfma(_) => AdvanceMfma(c, w, v);
    case _ => AdvanceOther(c, w, v);
  }

  lemma PassLoads(c: Config, v: Wave)
    requires Plan(c) && ShapeOf(c, v) && LoadsInv(c, v) && AtBarrier(v)
    ensures ShapeOf(c, PassBarrier(v)) && LoadsInv(c, PassBarrier(v))
  {
  }

  lemma RetireLoads(c: Config, v: Wave)
    requires Plan(c) && ShapeOf(c, v) && LoadsInv(c, v) && v.queue != []
    ensures ShapeOf(c, RetireWave(v)) && LoadsInv(c, RetireWave(v))
  {
    RetireNext(c.order, v.queue, v.xBuf, v.yBuf, Retired(c, v));
  }

  /** The two uses of loaded registers. */
  lemma XOperand(c: Config, v: Wave, i: nat)
    requires Plan(c) && ShapeOf(c, v) && LoadsInv(c, v) && v.stage.Mfma? && i < c.order.nx
    ensures v.round > 0 && v.xBuf[(v.round - 1) % 2][i] == From(c.order.Start(v.round - 1))
  {
    assert c.order.XLatest(v.round - 1, i, Retired(c, v));
  }

  lemma YOperand(c: Config, v: Wave, i: nat)
    requires Plan(c) && ShapeOf(c, v) && LoadsInv(c, v) && v.stage == Store && i < c.order.ny
    ensures v.yBuf[i] == From(c.order.Start(v.round))
  {
    assert c.order.YLatest(v.round, i, Retired(c, v));
  }
}
