/** What every step of the flat pipeline keeps: the LDS tiles that the waves share. */
module FlatWavesTiles {
  import opened LoadOrder
  import opened PipelineFlat
  import opened FlatWaves
  import opened FlatWavesLoads

  predicate Storing(stage: Stage) { stage == SecondFence || stage == SecondStore }

  /** Which tile of a side a wave's LDS cells hold, as far as they are not being stored: in the midst of the stores,
      the first side already holds the round's own. */
  function HeldTile(g: Machine, v: Wave, isA: bool): int {
    if Storing(v.stage) && isA == g.c.aFirst then v.round else v.round - 1
  }

  /** One side's cells of wave w hold the tile at `base`, except those whose store is under way. */
  ghost predicate OwnCells(c: Config, w: nat, isA: bool, stores: map<Key, seq<Slice>>, lds: seq<Slice>, base: nat)
    requires |lds| == c.Side(isA).cells
  {
    forall cell :: 0 <= cell < |lds| && c.Side(isA).wave(cell) == w && Key(isA, c.Side(isA).issue(cell)) !in stores ==>
      CellHolds(c, isA, lds[cell], cell, base, true)
  }

  /** A store under way carries the tile at `base` to the cells of its register. */
  ghost predicate Carries(c: Config, w: nat, key: Key, snapshot: seq<Slice>, base: nat) {
    && |snapshot| == c.Side(key.isA).cells
    && forall cell :: 0 <= cell < |snapshot| && c.Side(key.isA).wave(cell) == w && c.Side(key.isA).issue(cell) == key.i ==>
         CellHolds(c, key.isA, snapshot[cell], cell, base, true)
  }

  ghost predicate StoresInv(g: Machine, w: nat, v: Wave) {
    && (v.stores != map[] ==> Storing(v.stage) || ((v.stage.Issue? || v.stage == SstFence) && v.round > 0))
    && (Storing(v.stage) ==> forall key :: key in v.stores ==> key.isA == g.c.aFirst)
    && forall key :: key in v.stores ==>
         HeldTile(g, v, key.isA) >= 0 && Carries(g.c, w, key, v.stores[key], g.Start(HeldTile(g, v, key.isA)))
  }

  ghost predicate CellsInv(g: Machine, w: nat, v: Wave, isA: bool, lds: seq<Slice>)
    requires |lds| == g.c.Side(isA).cells
  {
    HeldTile(g, v, isA) >= 0 ==> OwnCells(g.c, w, isA, v.stores, lds, g.Start(HeldTile(g, v, isA)))
  }

  /** Every fragment that has arrived was read from the complete tile. */
  ghost predicate FragsInv(g: Machine, v: Wave)
    requires ShapeOf(g, v)
  {
    && (v.stage != SldFence ==> true !in v.fetchA && true !in v.fetchB)
    && (v.stage == SldFence || v.stage.Mfma? ==>
          && v.round > 0
          && (forall f :: 0 <= f < g.FragsA() && !v.fetchA[f] ==> TileHolds(g.c, true, v.fragA[f], g.Start(v.round - 1)))
          && (forall f :: 0 <= f < g.FragsB() && !v.fetchB[f] ==> TileHolds(g.c, false, v.fragB[f], g.Start(v.round - 1))))
  }

  ghost predicate TileInv(g: Machine, w: nat, v: Wave, ldsA: seq<Slice>, ldsB: seq<Slice>)
    requires ShapeOf(g, v) && |ldsA| == g.c.a.cells && |ldsB| == g.c.b.cells
  {
    StoresInv(g, w, v) && CellsInv(g, w, v, true, ldsA) && CellsInv(g, w, v, false, ldsB) && FragsInv(g, v)
  }

  /** Registers that are complete carry their tile. */
  lemma StoresCarry(g: Machine, w: nat, isA: bool, buf: seq<Slice>, base: nat)
    requires g.Valid() && SideHolds(g.c, w, isA, buf, base, g.c.T())
    ensures forall key :: key in SideStores(g, isA, buf) ==> key.isA == isA && Carries(g.c, w, key, SideStores(g, isA, buf)[key], base)
  {
    var c, l := g.c, g.c.Side(isA);
    forall key | key in SideStores(g, isA, buf) ensures key.isA == isA && Carries(c, w, key, buf, base) {
      forall cell | 0 <= cell < |buf| && l.wave(cell) == w && l.issue(cell) == key.i
        ensures CellHolds(c, isA, buf[cell], cell, base, true)
      {
        assert c.Pos(isA, l.issue(cell)) < c.T();
        assert CellHolds(c, isA, buf[cell], cell, base, c.Pos(isA, l.issue(cell)) < c.T());
      }
    }
  }

  /** With all its registers' stores under way, nothing is claimed of a side's cells. */
  lemma AllPending(g: Machine, w: nat, isA: bool, stores: map<Key, seq<Slice>>, buf: seq<Slice>, lds: seq<Slice>, base: nat)
    requires g.Valid() && |lds| == g.c.Side(isA).cells
    requires forall key :: key in SideStores(g, isA, buf) ==> key in stores
    ensures OwnCells(g.c, w, isA, stores, lds, base)
  {
    forall cell | 0 <= cell < |lds| ensures Key(isA, g.c.Side(isA).issue(cell)) in stores {
      assert g.c.Side(isA).issue(cell) < g.c.Side(isA).issues;
      assert Key(isA, g.c.Side(isA).issue(cell)) in SideStores(g, isA, buf);
    }
  }

  /** More stores under way, fewer cells to hold anything. */
  lemma MoreStores(c: Config, w: nat, isA: bool, stores: map<Key, seq<Slice>>, more: map<Key, seq<Slice>>, lds: seq<Slice>, base: nat)
    requires |lds| == c.Side(isA).cells && OwnCells(c, w, isA, stores, lds, base)
    requires forall key :: key in stores ==> key in more
    ensures OwnCells(c, w, isA, more, lds, base)
  {
  }

  /** The stores and cells of a wave that starts storing a side, in the round of tile `tile`. */
  lemma FirstStores(g: Machine, w: nat, v: Wave, v': Wave)
    requires g.Valid() && ShapeOf(g, v) && LoadsInv(g, w, v) && v.stage == FirstStore
    requires v' == v.(stage := SecondFence, stores := SideStores(g, g.c.aFirst, Buf(v, g.c.aFirst)))
    ensures StoresInv(g, w, v')
  {
    StoredSide(g, w, v, g.c.aFirst);
    StoresCarry(g, w, g.c.aFirst, Buf(v, g.c.aFirst), g.Start(v.round));
  }

  lemma FirstStoreCells(g: Machine, w: nat, v: Wave, v': Wave, isA: bool, lds: seq<Slice>)
    requires g.Valid() && |lds| == g.c.Side(isA).cells && CellsInv(g, w, v, isA, lds) && v.stage == FirstStore && v.stores == map[]
    requires v' == v.(stage := SecondFence, stores := SideStores(g, g.c.aFirst, Buf(v, g.c.aFirst)))
    ensures CellsInv(g, w, v', isA, lds)
  {
    if isA == g.c.aFirst {
      AllPending(g, w, isA, v'.stores, Buf(v, isA), lds, g.Start(v.round));
    } else if v.round > 0 {
      MoreStores(g.c, w, isA, v.stores, v'.stores, lds, g.Start(v.round - 1));
    }
  }

  lemma FirstStoreTile(g: Machine, w: nat, v: Wave, ldsA: seq<Slice>, ldsB: seq<Slice>, v': Wave)
    requires g.Valid() && ShapeOf(g, v) && ShapeOf(g, v') && |ldsA| == g.c.a.cells && |ldsB| == g.c.b.cells
    requires LoadsInv(g, w, v) && TileInv(g, w, v, ldsA, ldsB) && v.stage == FirstStore
    requires v' == v.(stage := SecondFence, stores := SideStores(g, g.c.aFirst, Buf(v, g.c.aFirst)))
    ensures TileInv(g, w, v', ldsA, ldsB)
  {
    FirstStores(g, w, v, v');
    FirstStoreCells(g, w, v, v', true, ldsA);
    FirstStoreCells(g, w, v, v', false, ldsB);
  }

  lemma SecondStores(g: Machine, w: nat, v: Wave, v': Wave)
    requires g.Valid() && ShapeOf(g, v) && LoadsInv(g, w, v) && StoresInv(g, w, v) && v.stage == SecondStore
    requires v'.round == v.round + 1 && v'.stage == Issue(0)
    requires v'.stores == v.stores + SideStores(g, !g.c.aFirst, Buf(v, !g.c.aFirst))
    ensures StoresInv(g, w, v')
  {
    var second := !g.c.aFirst;
    StoredSide(g, w, v, second);
    StoresCarry(g, w, second, Buf(v, second), g.Start(v.round));
    forall key | key in v'.stores
      ensures HeldTile(g, v', key.isA) >= 0 && Carries(g.c, w, key, v'.stores[key], g.Start(HeldTile(g, v', key.isA)))
    {
      if key !in SideStores(g, second, Buf(v, second)) { assert key in v.stores; }
    }
  }

  lemma SecondStoreCells(g: Machine, w: nat, v: Wave, v': Wave, isA: bool, lds: seq<Slice>)
    requires g.Valid() && |lds| == g.c.Side(isA).cells && CellsInv(g, w, v, isA, lds) && v.stage == SecondStore
    requires v'.round == v.round + 1 && v'.stage == Issue(0)
    requires v'.stores == v.stores + SideStores(g, !g.c.aFirst, Buf(v, !g.c.aFirst))
    ensures CellsInv(g, w, v', isA, lds)
  {
    if isA == g.c.aFirst {
      MoreStores(g.c, w, isA, v.stores, v'.stores, lds, g.Start(v.round));
    } else {
      AllPending(g, w, isA, v'.stores, Buf(v, isA), lds, g.Start(v.round));
    }
  }

  lemma SecondStoreTile(g: Machine, w: nat, v: Wave, ldsA: seq<Slice>, ldsB: seq<Slice>, v': Wave)
    requires g.Valid() && ShapeOf(g, v) && ShapeOf(g, v') && |ldsA| == g.c.a.cells && |ldsB| == g.c.b.cells
    requires LoadsInv(g, w, v) && TileInv(g, w, v, ldsA, ldsB) && v.stage == SecondStore
    requires v'.round == v.round + 1 && v'.stage == Issue(0)
    requires v'.stores == v.stores + SideStores(g, !g.c.aFirst, Buf(v, !g.c.aFirst))
    requires v'.fetchA == v.fetchA && v'.fetchB == v.fetchB && v'.fragA == v.fragA && v'.fragB == v.fragB
    ensures TileInv(g, w, v', ldsA, ldsB)
  {
    SecondStores(g, w, v, v');
    SecondStoreCells(g, w, v, v', true, ldsA);
    SecondStoreCells(g, w, v, v', false, ldsB);
  }

  /** What neither stores nor reads keeps both. */
  lemma SameTile(g: Machine, w: nat, v: Wave, ldsA: seq<Slice>, ldsB: seq<Slice>, v': Wave)
    requires ShapeOf(g, v) && ShapeOf(g, v') && |ldsA| == g.c.a.cells && |ldsB| == g.c.b.cells && TileInv(g, w, v, ldsA, ldsB)
    requires v'.stores == v.stores && v'.round == v.round && Storing(v'.stage) == Storing(v.stage)
    requires v.stores == map[] || v'.stage.Issue? || v'.stage == SstFence || Storing(v'.stage)
    requires v'.fetchA == v.fetchA && v'.fetchB == v.fetchB && v'.fragA == v.fragA && v'.fragB == v.fragB
    requires (v'.stage == SldFence ==> v.stage == SldFence) && (v'.stage.Mfma? ==> v.stage == SldFence || v.stage.Mfma?)
    requires v.stage == SldFence && v'.stage != SldFence ==> true !in v.fetchA && true !in v.fetchB
    ensures TileInv(g, w, v', ldsA, ldsB)
  {
    SameCells(g, w, v, v', ldsA, ldsB);
    SameFrags(g, v, v');
  }

  lemma SameFrags(g: Machine, v: Wave, v': Wave)
    requires ShapeOf(g, v) && ShapeOf(g, v') && FragsInv(g, v) && v'.round == v.round
    requires v'.fetchA == v.fetchA && v'.fetchB == v.fetchB && v'.fragA == v.fragA && v'.fragB == v.fragB
    requires (v'.stage == SldFence ==> v.stage == SldFence) && (v'.stage.Mfma? ==> v.stage == SldFence || v.stage.Mfma?)
    requires v.stage == SldFence && v'.stage != SldFence ==> true !in v.fetchA && true !in v.fetchB
    ensures FragsInv(g, v')
  {
  }

  /** Reads begin: nothing has arrived yet. */
  lemma ReadFrags(g: Machine, v: Wave, v': Wave)
    requires ShapeOf(g, v') && v.stage == LdsRead && v.round > 0
    requires v' == v.(stage := SldFence, fetchA := seq(g.FragsA(), _ => true), fetchB := seq(g.FragsB(), _ => true))
    ensures FragsInv(g, v')
  {
  }

  lemma ReadTile(g: Machine, w: nat, v: Wave, ldsA: seq<Slice>, ldsB: seq<Slice>, v': Wave)
    requires ShapeOf(g, v) && ShapeOf(g, v') && |ldsA| == g.c.a.cells && |ldsB| == g.c.b.cells && TileInv(g, w, v, ldsA, ldsB)
    requires v.stage == LdsRead
    requires v' == v.(stage := SldFence, fetchA := seq(g.FragsA(), _ => true), fetchB := seq(g.FragsB(), _ => true))
    ensures TileInv(g, w, v', ldsA, ldsB)
  {
    ReadFrags(g, v, v');
    assert v.stores == map[];
    SameCells(g, w, v, v', ldsA, ldsB);
  }

  /** Global loads touch neither LDS nor what is on its way to or from it. */
  lemma RegistersTile(g: Machine, w: nat, v: Wave, ldsA: seq<Slice>, ldsB: seq<Slice>, v': Wave)
    requires ShapeOf(g, v) && ShapeOf(g, v') && |ldsA| == g.c.a.cells && |ldsB| == g.c.b.cells && TileInv(g, w, v, ldsA, ldsB)
    requires v' == v.(queue := v'.queue, aBuf := v'.aBuf, bBuf := v'.bBuf)
    ensures TileInv(g, w, v', ldsA, ldsB)
  {
    SameCells(g, w, v, v', ldsA, ldsB);
  }

  /** A store that lands changes only cells of its own wave and side. */
  lemma LandTile(g: Machine, w: nat, v: Wave, ldsA: seq<Slice>, ldsB: seq<Slice>, u: nat, key: Key, snapshot: seq<Slice>,
                 v': Wave, ldsA': seq<Slice>, ldsB': seq<Slice>)
    requires ShapeOf(g, v) && ShapeOf(g, v') && |ldsA| == g.c.a.cells && |ldsB| == g.c.b.cells && TileInv(g, w, v, ldsA, ldsB)
    requires u == w ==> key in v.stores && snapshot == v.stores[key]
    requires |snapshot| == g.c.Side(key.isA).cells && v' == if u == w then v.(stores := v.stores - {key}) else v
    requires ldsA' == if key.isA then LandIn(g.c.a, ldsA, u, key.i, snapshot) else ldsA
    requires ldsB' == if key.isA then ldsB else LandIn(g.c.b, ldsB, u, key.i, snapshot)
    ensures TileInv(g, w, v', ldsA', ldsB')
  {
    LandSide(g, w, v, true, ldsA, u, key, snapshot, v', ldsA');
    LandSide(g, w, v, false, ldsB, u, key, snapshot, v', ldsB');
  }

  lemma LandSide(g: Machine, w: nat, v: Wave, isA: bool, lds: seq<Slice>, u: nat, key: Key, snapshot: seq<Slice>,
                 v': Wave, lds': seq<Slice>)
    requires |lds| == g.c.Side(isA).cells && CellsInv(g, w, v, isA, lds) && StoresInv(g, w, v)
    requires u == w ==> key in v.stores && snapshot == v.stores[key]
    requires |snapshot| == g.c.Side(key.isA).cells && v' == if u == w then v.(stores := v.stores - {key}) else v
    requires lds' == if key.isA == isA then LandIn(g.c.Side(isA), lds, u, key.i, snapshot) else lds
    ensures CellsInv(g, w, v', isA, lds')
  {
  }

  // ---------------------------------------------------------------- the waves together

  /** How many barriers a wave has passed. */
  function Epoch(v: Wave): int {
    if v.round == 0 then 0
    else match v.stage
      case Issue(_) | SstFence | AtBarrierA => 2 * v.round - 2
      case FirstFence | FirstStore | SecondFence | SecondStore => 2 * v.round
      case _ => 2 * v.round - 1
  }

  /** The side of LDS a fragment is read from. */
  function Lds(s: State, isA: bool): seq<Slice> { if isA then s.ldsA else s.ldsB }

  /** While any wave reads, no wave has stores under way and both tiles are complete. */
  lemma TilesComplete(g: Machine, s: State, w: nat, isA: bool)
    requires Shape(g, s) && w < g.c.waves && s.waves[w].stage == SldFence && s.waves[w].round > 0
    requires forall u :: 0 <= u < g.c.waves ==> TileInv(g, u, s.waves[u], s.ldsA, s.ldsB)
    requires forall u :: 0 <= u < g.c.waves ==> Epoch(s.waves[u]) == Epoch(s.waves[w])
    ensures TileHolds(g.c, isA, Lds(s, isA), g.Start(s.waves[w].round - 1))
    ensures forall u :: 0 <= u < g.c.waves ==> s.waves[u].stores == map[]
  {
    var l, lds := g.c.Side(isA), Lds(s, isA);
    forall u | 0 <= u < g.c.waves
      ensures s.waves[u].stores == map[] && s.waves[u].round == s.waves[w].round && !Storing(s.waves[u].stage)
    {
      assert TileInv(g, u, s.waves[u], s.ldsA, s.ldsB);
      assert Epoch(s.waves[u]) == Epoch(s.waves[w]);
    }
    forall cell | 0 <= cell < l.cells ensures CellHolds(g.c, isA, lds[cell], cell, g.Start(s.waves[w].round - 1), true) {
      var u := l.wave(cell);
      assert TileInv(g, u, s.waves[u], s.ldsA, s.ldsB);
      assert OwnCells(g.c, u, isA, s.waves[u].stores, lds, g.Start(s.waves[w].round - 1));
    }
  }

  lemma ArriveFrags(g: Machine, v: Wave, isA: bool, f: nat, lds: seq<Slice>)
    requires ShapeOf(g, v) && FragsInv(g, v) && v.stage == SldFence && (if isA then f < g.FragsA() else f < g.FragsB())
    requires v.round > 0 && TileHolds(g.c, isA, lds, g.Start(v.round - 1)) && ShapeOf(g, ArriveWave(v, isA, f, lds))
    ensures FragsInv(g, ArriveWave(v, isA, f, lds))
  {
  }

  lemma ArriveTile(g: Machine, w: nat, v: Wave, ldsA: seq<Slice>, ldsB: seq<Slice>, isA: bool, f: nat, lds: seq<Slice>, v': Wave)
    requires ShapeOf(g, v) && |ldsA| == g.c.a.cells && |ldsB| == g.c.b.cells && TileInv(g, w, v, ldsA, ldsB)
    requires v.stage == SldFence && v.round > 0 && (if isA then f < g.FragsA() else f < g.FragsB())
    requires v' == ArriveWave(v, isA, f, lds) && TileHolds(g.c, isA, lds, g.Start(v.round - 1)) && ShapeOf(g, v')
    ensures TileInv(g, w, v', ldsA, ldsB)
  {
    ArriveFrags(g, v, isA, f, lds);
    SameCells(g, w, v, v', ldsA, ldsB);
  }

  lemma SameCells(g: Machine, w: nat, v: Wave, v': Wave, ldsA: seq<Slice>, ldsB: seq<Slice>)
    requires |ldsA| == g.c.a.cells && |ldsB| == g.c.b.cells
    requires StoresInv(g, w, v) && CellsInv(g, w, v, true, ldsA) && CellsInv(g, w, v, false, ldsB)
    requires v'.stores == v.stores && v'.round == v.round && Storing(v'.stage) == Storing(v.stage)
    requires v.stores == map[] || v'.stage == v.stage || v'.stage.Issue? || v'.stage == SstFence || Storing(v'.stage)
    ensures StoresInv(g, w, v') && CellsInv(g, w, v', true, ldsA) && CellsInv(g, w, v', false, ldsB)
  {
  }
}
