/** What every step of the flat pipeline keeps: the loads of one wave. */
module FlatWavesLoads {
  import opened LoadOrder
  import opened PipelineFlat
  import opened FlatWaves

  /** How many loads of the round's tile a wave has issued. */
  function Issued(g: Machine, v: Wave): nat {
    if !g.Hot(v.round) then 0 else if v.stage.Issue? then v.stage.r else g.c.T()
  }

  function Completed(g: Machine, v: Wave): int { Issued(g, v) - |v.queue| }

  /** The wave's registers of one side, with `done` loads of the tile complete. */
  ghost predicate SideHolds(c: Config, w: nat, isA: bool, buf: seq<Slice>, base: nat, done: int) {
    && |buf| == c.Side(isA).cells
    && forall cell :: 0 <= cell < c.Side(isA).cells && c.Side(isA).wave(cell) == w ==>
         CellHolds(c, isA, buf[cell], cell, base, c.Pos(isA, c.Side(isA).issue(cell)) < done)
  }

  ghost predicate Windows(g: Machine, v: Wave) {
    if v.round == 0 && v.stage.Issue? then
      && (if g.c.aFirst then v.aBase else v.bBase) == (if v.stage.r >= g.c.Side(g.c.aFirst).issues then g.c.tile else 0)
      && (if g.c.aFirst then v.bBase else v.aBase) == (if v.stage.r >= g.c.T() then g.c.tile else 0)
    else
      v.aBase == v.bBase == g.Start(if Consumed(v.stage) then v.round + 1 else v.round)
  }

  /** What the fences have waited for. */
  predicate Fenced(g: Machine, v: Wave) {
    && (v.stage == FirstStore || v.stage == SecondFence || v.stage == SecondStore ==> |v.queue| <= g.SecondLoads())
    && (v.stage == SecondStore ==> v.queue == [])
  }

  ghost predicate LoadsInv(g: Machine, w: nat, v: Wave)
    requires ShapeOf(g, v)
  {
    && QueueOf(g.c, v.queue, g.Start(v.round), Issued(g, v))
    && SideHolds(g.c, w, true, v.aBuf, g.Start(v.round), Completed(g, v))
    && SideHolds(g.c, w, false, v.bBuf, g.Start(v.round), Completed(g, v))
    && Windows(g, v) && Fenced(g, v)
  }

  // ---------------------------------------------------------------- loads

  lemma Append(c: Config, queue: seq<Fetch>, base: nat, issued: nat, load: Fetch)
    requires QueueOf(c, queue, base, issued) && IsLoad(c, load, base, issued)
    ensures QueueOf(c, queue + [load], base, issued + 1)
  {
    var more := queue + [load];
    forall j | 0 <= j < |more| ensures IsLoad(c, more[j], base, issued + 1 - |more| + j) {
      if j < |queue| { assert more[j] == queue[j]; }
    }
  }

  lemma IssueIsLoad(g: Machine, v: Wave)
    requires g.Valid() && ShapeOf(g, v) && Windows(g, v) && v.stage.Issue? && v.stage.r < g.c.T() && g.Hot(v.round)
    ensures var load := IssueLoad(g, v).queue[|v.queue|];
      IssueLoad(g, v).queue == v.queue + [load] && IsLoad(g.c, load, g.Start(v.round), v.stage.r)
  {
  }

  lemma IssueShape(g: Machine, v: Wave)
    requires g.Valid() && ShapeOf(g, v) && v.stage.Issue? && v.stage.r < g.c.T() && g.Hot(v.round)
    ensures ShapeOf(g, IssueLoad(g, v))
  {
  }

  lemma IssueWindows(g: Machine, v: Wave)
    requires g.Valid() && Windows(g, v) && v.stage.Issue? && v.stage.r < g.c.T()
    ensures Windows(g, IssueLoad(g, v))
  {
  }

  lemma AdvanceIssue(g: Machine, w: nat, v: Wave)
    requires g.Valid() && ShapeOf(g, v) && LoadsInv(g, w, v) && v.stage.Issue? && v.stage.r < g.c.T() && g.Hot(v.round)
    ensures ShapeOf(g, IssueLoad(g, v)) && LoadsInv(g, w, IssueLoad(g, v))
  {
    IssueShape(g, v);
    IssueIsLoad(g, v);
    IssueWindows(g, v);
    var load := IssueLoad(g, v).queue[|v.queue|];
    Append(g.c, v.queue, g.Start(v.round), v.stage.r, load);
  }

  lemma Pop(c: Config, queue: seq<Fetch>, base: nat, issued: nat)
    requires QueueOf(c, queue, base, issued) && queue != []
    ensures QueueOf(c, queue[1..], base, issued)
  {
    var rest := queue[1..];
    forall j | 0 <= j < |rest| ensures IsLoad(c, rest[j], base, issued - |rest| + j) {
      assert rest[j] == queue[j + 1];
    }
  }

  /** A completed load fills its enabled registers; the other registers' loads are as complete as before. */
  lemma FillHolds(c: Config, w: nat, isA: bool, buf: seq<Slice>, base: nat, done: nat, load: Fetch)
    requires c.Valid() && SideHolds(c, w, isA, buf, base, done) && IsLoad(c, load, base, done)
    ensures load.isA == isA ==> SideHolds(c, w, isA, Filled(c.Side(isA), buf, w, load), base, done + 1)
    ensures load.isA != isA ==> SideHolds(c, w, isA, buf, base, done + 1)
  {
    var l := c.Side(isA);
    var now := if load.isA == isA then Filled(l, buf, w, load) else buf;
    forall cell | 0 <= cell < l.cells && l.wave(cell) == w
      ensures CellHolds(c, isA, now[cell], cell, base, c.Pos(isA, l.issue(cell)) < done + 1)
    {
      assert l.issue(cell) < l.issues;
      if c.Pos(isA, l.issue(cell)) == done { SamePos(c, isA, l.issue(cell), load.isA, load.i); }
      assert CellHolds(c, isA, buf[cell], cell, base, c.Pos(isA, l.issue(cell)) < done);
    }
  }

  lemma RetireLoads(g: Machine, w: nat, v: Wave)
    requires g.Valid() && ShapeOf(g, v) && LoadsInv(g, w, v) && v.queue != []
    ensures ShapeOf(g, RetireWave(g, w, v)) && LoadsInv(g, w, RetireWave(g, w, v))
  {
    var load, done := v.queue[0], Completed(g, v);
    assert IsLoad(g.c, load, g.Start(v.round), done);
    FillHolds(g.c, w, true, v.aBuf, g.Start(v.round), done, load);
    FillHolds(g.c, w, false, v.bBuf, g.Start(v.round), done, load);
    Pop(g.c, v.queue, g.Start(v.round), Issued(g, v));
    RetireShape(g, w, v);
    Retired(g, w, v, RetireWave(g, w, v));
  }

  lemma RetireShape(g: Machine, w: nat, v: Wave)
    requires g.Valid() && ShapeOf(g, v) && v.queue != []
    ensures ShapeOf(g, RetireWave(g, w, v))
  {
  }

  lemma Retired(g: Machine, w: nat, v: Wave, v': Wave)
    requires ShapeOf(g, v) && ShapeOf(g, v') && LoadsInv(g, w, v) && v.queue != []
    requires v' == v.(queue := v.queue[1..], aBuf := v'.aBuf, bBuf := v'.bBuf)
    requires QueueOf(g.c, v'.queue, g.Start(v.round), Issued(g, v))
    requires SideHolds(g.c, w, true, v'.aBuf, g.Start(v.round), Completed(g, v) + 1)
    requires SideHolds(g.c, w, false, v'.bBuf, g.Start(v.round), Completed(g, v) + 1)
    ensures LoadsInv(g, w, v')
  {
  }

  // ---------------------------------------------------------------- other instructions

  /** Whatever leaves queue, registers, round and windows alone keeps the invariant, as long as its fences hold. */
  lemma SameLoads(g: Machine, w: nat, v: Wave, v': Wave)
    requires ShapeOf(g, v) && LoadsInv(g, w, v) && ShapeOf(g, v')
    requires v'.queue == v.queue && v'.aBuf == v.aBuf && v'.bBuf == v.bBuf && v'.round == v.round
    requires Issued(g, v') == Issued(g, v) && Windows(g, v') && Fenced(g, v')
    ensures LoadsInv(g, w, v')
  {
  }

  /** Registers ready for the next tile. */
  lemma FreshSide(c: Config, w: nat, isA: bool, buf: seq<Slice>, base: nat)
    requires |buf| == c.Side(isA).cells
    requires c.Cleared(isA) ==> forall cell :: 0 <= cell < |buf| ==> buf[cell] == Blank
    ensures SideHolds(c, w, isA, buf, base, 0)
  {
  }

  lemma NextRoundLoads(g: Machine, w: nat, v: Wave)
    requires g.Valid() && ShapeOf(g, v) && LoadsInv(g, w, v) && v.stage == SecondStore && ShapeOf(g, NextRound(g, v))
    ensures LoadsInv(g, w, NextRound(g, v))
  {
    var v' := NextRound(g, v);
    FreshSide(g.c, w, true, v'.aBuf, g.Start(v'.round));
    FreshSide(g.c, w, false, v'.bBuf, g.Start(v'.round));
  }

  /** A side that is about to be stored is complete. */
  lemma StoredSide(g: Machine, w: nat, v: Wave, isA: bool)
    requires g.Valid() && ShapeOf(g, v) && LoadsInv(g, w, v)
    requires (v.stage == FirstStore && isA == g.c.aFirst) || (v.stage == SecondStore && isA != g.c.aFirst)
    ensures SideHolds(g.c, w, isA, Buf(v, isA), g.Start(v.round), g.c.T())
  {
    var c, l := g.c, g.c.Side(isA);
    forall cell | 0 <= cell < l.cells && l.wave(cell) == w
      ensures CellHolds(c, isA, Buf(v, isA)[cell], cell, g.Start(v.round), c.Pos(isA, l.issue(cell)) < c.T())
    {
      assert l.issue(cell) < l.issues;
      assert c.Pos(isA, l.issue(cell)) < Completed(g, v);
      assert CellHolds(c, isA, Buf(v, isA)[cell], cell, g.Start(v.round), c.Pos(isA, l.issue(cell)) < Completed(g, v));
    }
  }
}
