/** The global loads of one wave of the one-sided pipeline: a first-in first-out queue into two X buffers and
    one Y buffer.

    Tile after tile, a wave issues all X loads and then all Y loads, or the other way round.  X tile t goes
    to buffer t % 2. */
module LoadOrder {
  import opened Arith

  /** What a register vector or LDS vector holds: the slice of K starting at `base`, or zeros. */
  datatype Slice = Blank | From(base: nat)

  /** A global load in flight, with the destination register and the slice window at its issue. */
  datatype Load = ToX(buf: nat, i: nat, base: nat) | ToY(i: nat, base: nat)

  /** `gld_x_first`, the number of X and of Y loads per tile, and K_PER_BLOCK. */
  datatype Order = Order(xFirst: bool, nx: nat, ny: nat, tile: nat)
  {
    /** Loads per tile. */
    function T(): nat { nx + ny }

    /** Whether the r-th load of a tile is an X load, and its register. */
    predicate IsX(r: nat) { if xFirst then r < nx else ny <= r }

    function Reg(r: nat): nat {
      if xFirst then (if r < nx then r else r - nx) else (if r < ny then r else r - ny)
    }

    /** The number of loads before tile t. */
    function Before(t: nat): nat { if t == 0 then 0 else Before(t - 1) + T() }

    /** The first k of tile t. */
    function Start(t: nat): nat { if t == 0 then 0 else Start(t - 1) + tile }

    /** The position of the load of register i of tile t. */
    function XPos(t: nat, i: nat): nat { Before(t) + (if xFirst then i else ny + i) }
    function YPos(t: nat, i: nat): nat { Before(t) + (if xFirst then nx + i else i) }

    /** Tile t's load of register i is the latest completed one, `ret` loads having completed. */
    predicate XLatest(t: nat, i: nat, ret: int) { i < nx && XPos(t, i) < ret <= XPos(t + 2, i) }
    predicate YLatest(t: nat, i: nat, ret: int) { i < ny && YPos(t, i) < ret <= YPos(t + 1, i) }

    /** The r-th load of tile t. */
    function TileLoad(t: nat, r: nat): Load {
      if IsX(r) then ToX(t % 2, Reg(r), Start(t)) else ToY(Reg(r), Start(t))
    }
  }

  lemma {:induction false} StartIsProduct(o: Order, t: nat)
    ensures o.Start(t) == t * o.tile
  {
    if t > 0 {
      StartIsProduct(o, t - 1);
      Distribute(t - 1, 1, o.tile);
    }
  }

  lemma {:induction false} BeforeMono(o: Order, t: nat, u: nat)
    requires t <= u
    ensures o.Before(t) <= o.Before(u)
    ensures t < u ==> o.Before(t) + o.T() <= o.Before(u)
  {
    if t < u { BeforeMono(o, t, u - 1); }
  }

  /** The tile and the place in it of the n-th load. */
  lemma {:induction false} Locate(o: Order, n: nat) returns (t: nat, r: nat)
    requires o.T() > 0
    ensures r < o.T() && n == o.Before(t) + r
  {
    if n < o.T() {
      t, r := 0, n;
    } else {
      var t0, r0 := Locate(o, n - o.T());
      t, r := t0 + 1, r0;
    }
  }

  /** The queue holds the loads from position `ret` on. */
  ghost predicate Queued(o: Order, queue: seq<Load>, ret: int) {
    forall j, t: nat, r: nat :: 0 <= j < |queue| && r < o.T() && ret + j == o.Before(t) + r ==> queue[j] == o.TileLoad(t, r)
  }

  predicate Sized(o: Order, xBuf: seq<seq<Slice>>, yBuf: seq<Slice>) {
    |xBuf| == 2 && |xBuf[0]| == |xBuf[1]| == o.nx && |yBuf| == o.ny
  }

  /** Every register holds the latest slice loaded into it, `ret` loads having completed. */
  ghost predicate XLoaded(o: Order, xBuf: seq<seq<Slice>>, ret: int)
    requires |xBuf| == 2 && |xBuf[0]| == |xBuf[1]| == o.nx
  {
    forall t: nat, i: nat {:trigger o.XLatest(t, i, ret)} :: o.XLatest(t, i, ret) ==>
      xBuf[t % 2][i] == From(o.Start(t))
  }

  ghost predicate YLoaded(o: Order, yBuf: seq<Slice>, ret: int)
    requires |yBuf| == o.ny
  {
    forall t: nat, i: nat {:trigger o.YLatest(t, i, ret)} :: o.YLatest(t, i, ret) ==> yBuf[i] == From(o.Start(t))
  }

  lemma Append(o: Order, queue: seq<Load>, ret: int, t: nat, r: nat)
    requires Queued(o, queue, ret) && r < o.T() && ret + |queue| == o.Before(t) + r
    ensures Queued(o, queue + [o.TileLoad(t, r)], ret)
  {
    var queue' := queue + [o.TileLoad(t, r)];
    forall j, u: nat, s: nat | 0 <= j < |queue'| && s < o.T() && ret + j == o.Before(u) + s
      ensures queue'[j] == o.TileLoad(u, s)
    {
      if j == |queue| { SamePlace(o, t, r, u, s); }
    }
  }

  lemma SamePlace(o: Order, t: nat, r: nat, u: nat, s: nat)
    requires r < o.T() && s < o.T() && o.Before(t) + r == o.Before(u) + s
    ensures t == u && r == s
  {
    if t < u { BeforeMono(o, t, u); }
    if u < t { BeforeMono(o, u, t); }
  }

  lemma Pop(o: Order, queue: seq<Load>, ret: int)
    requires Queued(o, queue, ret) && queue != []
    ensures Queued(o, queue[1..], ret + 1)
  {
    var queue' := queue[1..];
    forall j, u: nat, s: nat | 0 <= j < |queue'| && s < o.T() && ret + 1 + j == o.Before(u) + s
      ensures queue'[j] == o.TileLoad(u, s)
    {
      assert queue'[j] == queue[j + 1];
    }
  }

  /** A completed load of X register j of tile u: the next load of that register belongs to tile u + 2. */
  lemma RetireX(o: Order, xBuf: seq<seq<Slice>>, u: nat, j: nat, x': seq<seq<Slice>>)
    requires |xBuf| == 2 && |xBuf[0]| == |xBuf[1]| == o.nx && j < o.nx
    requires XLoaded(o, xBuf, o.XPos(u, j))
    requires x' == xBuf[u % 2 := xBuf[u % 2][j := From(o.Start(u))]]
    ensures XLoaded(o, x', o.XPos(u, j) + 1)
  {
    forall t: nat, i: nat | o.XLatest(t, i, o.XPos(u, j) + 1)
      ensures x'[t % 2][i] == From(o.Start(t))
    {
      XOrder(o, t, i, u, j);
      assert o.XPos(t, i) < o.XPos(u, j) ==> o.XLatest(t, i, o.XPos(u, j));
    }
  }

  lemma XOrder(o: Order, t: nat, i: nat, u: nat, j: nat)
    requires i < o.nx && j < o.nx && o.XPos(t, i) <= o.XPos(u, j) < o.XPos(t + 2, i)
    ensures (t == u && i == j) || (o.XPos(t, i) < o.XPos(u, j) && (i != j || t % 2 != u % 2))
  {
    if o.XPos(t, i) == o.XPos(u, j) {
      var d := if o.xFirst then 0 else o.ny;
      SamePlace(o, t, d + i, u, d + j);
    } else if i == j {
      if u <= t { BeforeMono(o, u, t); }
      if t + 2 <= u { BeforeMono(o, t + 2, u); }
    }
  }

  lemma RetireY(o: Order, yBuf: seq<Slice>, u: nat, j: nat)
    requires |yBuf| == o.ny && j < o.ny
    requires YLoaded(o, yBuf, o.YPos(u, j))
    ensures YLoaded(o, yBuf[j := From(o.Start(u))], o.YPos(u, j) + 1)
  {
    var y' := yBuf[j := From(o.Start(u))];
    forall t: nat, i: nat | o.YLatest(t, i, o.YPos(u, j) + 1)
      ensures y'[i] == From(o.Start(t))
    {
      YOrder(o, t, i, u, j);
      assert o.YPos(t, i) < o.YPos(u, j) ==> o.YLatest(t, i, o.YPos(u, j));
    }
  }

  lemma YOrder(o: Order, t: nat, i: nat, u: nat, j: nat)
    requires i < o.ny && j < o.ny && o.YPos(t, i) <= o.YPos(u, j) < o.YPos(t + 1, i)
    ensures (t == u && i == j) || (o.YPos(t, i) < o.YPos(u, j) && i != j)
  {
    if o.YPos(t, i) == o.YPos(u, j) {
      var d := if o.xFirst then o.nx else 0;
      SamePlace(o, t, d + i, u, d + j);
    } else if i == j {
      if u <= t { BeforeMono(o, u, t); }
      if t + 1 <= u { BeforeMono(o, t + 1, u); }
    }
  }

  /** A load of one side completes no load of the other. */
  lemma Apart(o: Order, t: nat, r: nat, u: nat, i: nat, n: nat)
    requires r < o.T() && n == o.Before(t) + r
    ensures o.IsX(r) && o.YLatest(u, i, n + 1) ==> o.YLatest(u, i, n)
    ensures !o.IsX(r) && o.XLatest(u, i, n + 1) ==> o.XLatest(u, i, n)
  {
    if o.IsX(r) {
      if i < o.ny && o.YPos(u, i) == n { SamePlace(o, t, r, u, if o.xFirst then o.nx + i else i); }
    } else {
      if i < o.nx && o.XPos(u, i) == n { SamePlace(o, t, r, u, if o.xFirst then i else o.ny + i); }
    }
  }

  lemma XKeepsY(o: Order, t: nat, r: nat, yBuf: seq<Slice>, n: nat)
    requires |yBuf| == o.ny && r < o.T() && o.IsX(r) && n == o.Before(t) + r && YLoaded(o, yBuf, n)
    ensures YLoaded(o, yBuf, n + 1)
  {
    forall u: nat, i: nat | o.YLatest(u, i, n + 1) ensures yBuf[i] == From(o.Start(u)) {
      Apart(o, t, r, u, i, n);
    }
  }

  lemma YKeepsX(o: Order, t: nat, r: nat, xBuf: seq<seq<Slice>>, n: nat)
    requires |xBuf| == 2 && |xBuf[0]| == |xBuf[1]| == o.nx
    requires r < o.T() && !o.IsX(r) && n == o.Before(t) + r && XLoaded(o, xBuf, n)
    ensures XLoaded(o, xBuf, n + 1)
  {
    forall u: nat, i: nat | o.XLatest(u, i, n + 1) ensures xBuf[u % 2][i] == From(o.Start(u)) {
      Apart(o, t, r, u, i, n);
    }
  }

  /** A load completes into its register. */
  function Deliver(load: Load, xBuf: seq<seq<Slice>>): seq<seq<Slice>>
    requires |xBuf| == 2
  {
    match load
    case ToX(buf, i, base) =>
      if buf < 2 && i < |xBuf[buf]| then xBuf[buf := xBuf[buf][i := From(base)]] else xBuf
    case ToY(_, _) => xBuf
  }

  function DeliverY(load: Load, yBuf: seq<Slice>): seq<Slice> {
    match load
    case ToX(_, _, _) => yBuf
    case ToY(i, base) => if i < |yBuf| then yBuf[i := From(base)] else yBuf
  }

  lemma RetireNext(o: Order, queue: seq<Load>, xBuf: seq<seq<Slice>>, yBuf: seq<Slice>, ret: nat)
    requires o.T() > 0 && Sized(o, xBuf, yBuf) && queue != []
    requires Queued(o, queue, ret) && XLoaded(o, xBuf, ret) && YLoaded(o, yBuf, ret)
    ensures var x', y' := Deliver(queue[0], xBuf), DeliverY(queue[0], yBuf);
      Sized(o, x', y') && XLoaded(o, x', ret + 1) && YLoaded(o, y', ret + 1) && Queued(o, queue[1..], ret + 1)
  {
    var t, r := Locate(o, ret);
    assert ret + 0 == o.Before(t) + r;
    assert queue[0] == o.TileLoad(t, r);
    Pop(o, queue, ret);
    if o.IsX(r) {
      XKeepsY(o, t, r, yBuf, ret);
      RetireX(o, xBuf, t, o.Reg(r), Deliver(queue[0], xBuf));
    } else {
      YKeepsX(o, t, r, xBuf, ret);
      RetireY(o, yBuf, t, o.Reg(r));
    }
  }
}
