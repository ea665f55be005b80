/** What every step of the one-sided pipeline keeps: the LDS tile that the waves share. */
module OneSideTile {
  import opened LoadOrder
  import opened PipelineOneSide
  import opened OneSideLoads

  /** Every word of the LDS but padding holds tile t. */
  ghost predicate IsTile(c: Config, lds: seq<Slice>, t: nat) {
    |lds| == c.cells && forall cell :: 0 <= cell < c.cells && c.Written(cell) ==> lds[cell] == From(c.order.Start(t))
  }

  /** Stores under way carry the tile of the coming product, and none is left after `sst_fence`. */
  ghost predicate StoresInv(c: Config, v: Wave) {
    && (v.round == 0 || !(v.stage.Issue? || v.stage == SstFence) ==> v.stores == map[])
    && forall i :: i in v.stores ==> i < c.order.ny && v.round > 0 && v.stores[i] == From(c.order.Start(v.round - 1))
  }

  /** The cells a wave writes hold that tile, except those whose store is under way. */
  ghost predicate OwnCells(c: Config, w: nat, v: Wave, lds: seq<Slice>)
    requires |lds| == c.cells
  {
    v.round > 0 ==>
      forall cell :: 0 <= cell < c.cells && c.ownerWave(cell) == w && c.ownerIssue(cell) !in v.stores ==>
        lds[cell] == From(c.order.Start(v.round - 1))
  }

  predicate Reading(v: Wave) { v.stage == XFence || v.stage == SldFence }

  /** Every fragment that has arrived was read from the complete tile. */
  ghost predicate FragsInv(c: Config, v: Wave)
    requires ShapeOf(c, v)
  {
    && (!Reading(v) ==> true !in v.fetching)
    && (Reading(v) || v.stage.Mfma? ==>
          forall f :: 0 <= f < c.Frags() && !v.fetching[f] ==> IsTile(c, v.yFrag[f], v.round - 1))
  }

  ghost predicate TileInv(c: Config, w: nat, v: Wave, lds: seq<Slice>)
    requires ShapeOf(c, v) && |lds| == c.cells
  {
    StoresInv(c, v) && OwnCells(c, w, v, lds) && FragsInv(c, v)
  }

  lemma StoreBegins(c: Config, w: nat, v: Wave, lds: seq<Slice>)
    requires c.Valid() && w < c.waves && Plan(c) && ShapeOf(c, v) && |lds| == c.cells && LoadsInv(c, v) && TileInv(c, w, v, lds)
    requires v.stage == Store && ShapeOf(c, AdvanceWave(c, w, v))
    ensures TileInv(c, w, AdvanceWave(c, w, v), lds)
  {
    var v' := AdvanceWave(c, w, v);
    forall i | i in v'.stores ensures v'.stores[i] == From(c.order.Start(v'.round - 1)) {
      YOperand(c, v, i);
    }
  }

  /** A product, and the end of the products, touch neither stores nor fragments. */
  lemma MfmaTile(c: Config, w: nat, v: Wave, lds: seq<Slice>, v': Wave)
    requires ShapeOf(c, v) && |lds| == c.cells && TileInv(c, w, v, lds) && v.stage.Mfma? && ShapeOf(c, v')
    requires v' == v.(stage := v'.stage, acc := v'.acc, xBase := v'.xBase, yBase := v'.yBase)
    requires v'.stage.Mfma? || v'.stage == AtBarrierB || v'.stage == Done
    ensures TileInv(c, w, v', lds)
  {
  }

  lemma AdvanceTile(c: Config, w: nat, v: Wave, lds: seq<Slice>)
    requires c.Valid() && w < c.waves && Plan(c) && ShapeOf(c, v) && |lds| == c.cells && LoadsInv(c, v) && TileInv(c, w, v, lds)
    requires Ready(c, v) && ShapeOf(c, AdvanceWave(c, w, v))
    ensures TileInv(c, w, AdvanceWave(c, w, v), lds)
  {
    match v.stage
    case Store => StoreBegins(c, w, v, lds);
    case Mfma(j) =>
      HotRounds(c, v.round);
      if j < c.Total() { MultiplyFrame(c, w, v); }
      MfmaTile(c, w, v, lds, AdvanceWave(c, w, v));
    case _ => OtherTile(c, w, v, lds);
  }

  lemma OtherTile(c: Config, w: nat, v: Wave, lds: seq<Slice>)
    requires c.Valid() && ShapeOf(c, v) && |lds| == c.cells && TileInv(c, w, v, lds)
    requires !v.stage.Mfma? && v.stage != Store && Ready(c, v) && ShapeOf(c, AdvanceWave(c, w, v))
    ensures TileInv(c, w, AdvanceWave(c, w, v), lds)
  {
  }

  lemma RetireTile(c: Config, w: nat, v: Wave, lds: seq<Slice>)
    requires ShapeOf(c, v) && |lds| == c.cells && TileInv(c, w, v, lds)
    requires v.queue != [] && ShapeOf(c, RetireWave(v))
    ensures TileInv(c, w, RetireWave(v), lds)
  {
  }

  lemma PassTile(c: Config, w: nat, v: Wave, lds: seq<Slice>)
    requires ShapeOf(c, v) && |lds| == c.cells && TileInv(c, w, v, lds)
    requires AtBarrier(v) && ShapeOf(c, PassBarrier(v))
    ensures TileInv(c, w, PassBarrier(v), lds)
  {
  }

  /** A store of wave w that lands changes only cells of wave w. */
  lemma LandTile(c: Config, w: nat, v: Wave, lds: seq<Slice>, u: nat, i: nat, value: Slice)
    requires ShapeOf(c, v) && |lds| == c.cells && TileInv(c, w, v, lds)
    requires u == w ==> i in v.stores && value == v.stores[i]
    ensures var v' := if u == w then v.(stores := v.stores - {i}) else v;
      ShapeOf(c, v') && TileInv(c, w, v', LandIn(c, lds, u, i, value))
  {
    var lds' := LandIn(c, lds, u, i, value);
    assert forall cell :: 0 <= cell < c.cells && c.ownerWave(cell) != u ==> lds'[cell] == lds[cell];
  }

  // ---------------------------------------------------------------- the waves together

  /** How many barriers a wave has passed. */
  function Epoch(v: Wave): int {
    if v.round == 0 then 0
    else match v.stage
      case Issue(_) | SstFence | AtBarrierA => 2 * v.round - 2
      case YFence | Store => 2 * v.round
      case _ => 2 * v.round - 1
  }

  /** While any wave reads the tile, no wave has stores under way and every word holds the tile of that wave. */
  lemma TileComplete(c: Config, s: State, w: nat)
    requires Shape(c, s) && w < c.waves && Reading(s.waves[w])
    requires forall u :: 0 <= u < c.waves ==> TileInv(c, u, s.waves[u], s.lds)
    requires forall u :: 0 <= u < c.waves ==> Epoch(s.waves[u]) == Epoch(s.waves[w])
    ensures s.waves[w].round > 0 && IsTile(c, s.lds, s.waves[w].round - 1)
  {
    forall cell | 0 <= cell < c.cells && c.Written(cell) ensures s.lds[cell] == From(c.order.Start(s.waves[w].round - 1)) {
      var u := c.ownerWave(cell);
      assert Epoch(s.waves[u]) == Epoch(s.waves[w]);
      assert s.waves[u].round == s.waves[w].round;
      assert OwnCells(c, u, s.waves[u], s.lds);
    }
  }

  lemma ArriveTile(c: Config, w: nat, v: Wave, lds: seq<Slice>, f: nat)
    requires ShapeOf(c, v) && |lds| == c.cells && TileInv(c, w, v, lds)
    requires f < c.Frags() && v.fetching[f] && v.round > 0 && IsTile(c, lds, v.round - 1)
    ensures var v' := v.(fetching := v.fetching[f := false], yFrag := v.yFrag[f := lds]);
      ShapeOf(c, v') && TileInv(c, w, v', lds)
  {
  }
}
