/** The run of `gemm_pipeline_flat`. */
module FlatRun {
  import opened Arith
  import opened LoadOrder
  import opened MfmaOrder
  import opened TileScheduler
  import opened PipelineFlat

  // ---------------------------------------------------------------- one load

  ghost predicate QueuesHold(c: Config, queues: seq<seq<Fetch>>, base: nat, issued: int) {
    |queues| == c.waves && forall w :: 0 <= w < c.waves ==> QueueOf(c, queues[w], base, issued)
  }

  /** Every load in flight reads exactly the vectors of its window that lie inside the matrix. */
  ghost predicate QueuesInside(c: Config, queues: seq<seq<Fetch>>) {
    forall w, j :: 0 <= w < |queues| && 0 <= j < |queues[w]| ==> LoadsInside(c, queues[w][j])
  }

  lemma QueuesStayInside(c: Config, queues: seq<seq<Fetch>>, t: nat, base: nat, issued: int)
    requires c.Valid() && QueuesHold(c, queues, base, issued) && base == t * c.tile
    ensures QueuesInside(c, queues)
  {
    forall w, j | 0 <= w < |queues| && 0 <= j < |queues[w]| ensures LoadsInside(c, queues[w][j]) {
      LoadInside(c, queues[w][j], t, base, issued - |queues[w]| + j);
    }
  }

  /** The oldest load of wave w completes: its cells now hold the tile, nothing else changes. */
  lemma RetireHolds(c: Config, isA: bool, buf: seq<Slice>, queues: seq<seq<Fetch>>, base: nat, issued: int, w: nat,
                    buf': seq<Slice>, queues': seq<seq<Fetch>>)
    requires c.Valid() && QueuesHold(c, queues, base, issued) && BufHolds(c, isA, buf, queues, base, issued)
    requires w < c.waves && queues[w] != [] && queues' == queues[w := queues[w][1..]]
    requires |queues[w][0].mask| == c.Side(queues[w][0].isA).cells
    requires buf' == if queues[w][0].isA == isA then Filled(c.Side(isA), buf, w, queues[w][0]) else buf
    ensures BufHolds(c, isA, buf', queues', base, issued)
  {
    var load, l := queues[w][0], c.Side(isA);
    assert IsLoad(c, load, base, issued - |queues[w]|);
    forall cell | 0 <= cell < l.cells
      ensures CellHolds(c, isA, buf'[cell], cell, base, Completed(c, isA, queues', cell, issued))
    {
      assert l.wave(cell) < c.waves && l.issue(cell) < l.issues;
      if l.wave(cell) == w && c.Pos(isA, l.issue(cell)) == issued - |queues[w]| {
        SamePos(c, isA, l.issue(cell), load.isA, load.i);
      }
      assert CellHolds(c, isA, buf[cell], cell, base, Completed(c, isA, queues, cell, issued));
    }
  }

  lemma RetireQueues(c: Config, queues: seq<seq<Fetch>>, base: nat, issued: int, w: nat)
    requires QueuesHold(c, queues, base, issued) && w < c.waves && queues[w] != []
    ensures QueuesHold(c, queues[w := queues[w][1..]], base, issued)
  {
    var queue := queues[w][1..];
    forall j | 0 <= j < |queue| ensures IsLoad(c, queue[j], base, issued - |queue| + j) {
      assert queue[j] == queues[w][j + 1];
    }
  }

  /** A load is issued in every wave: what has completed stays the same. */
  lemma IssueHolds(c: Config, isA: bool, buf: seq<Slice>, queues: seq<seq<Fetch>>, base: nat, issued: int,
                   queues': seq<seq<Fetch>>)
    requires c.Valid() && |queues| == |queues'| == c.waves && BufHolds(c, isA, buf, queues, base, issued)
    requires forall w :: 0 <= w < c.waves ==> |queues'[w]| == |queues[w]| + 1
    ensures BufHolds(c, isA, buf, queues', base, issued + 1)
  {
    forall cell | 0 <= cell < c.Side(isA).cells
      ensures CellHolds(c, isA, buf[cell], cell, base, Completed(c, isA, queues', cell, issued + 1))
    {
      assert CellHolds(c, isA, buf[cell], cell, base, Completed(c, isA, queues, cell, issued));
    }
  }

  /** Once no wave has more than the later side's loads under way, the earlier side is complete; once no wave
      has any, both are. */
  lemma AllArrived(c: Config, isA: bool, buf: seq<Slice>, queues: seq<seq<Fetch>>, base: nat)
    requires c.Valid() && |queues| == c.waves && BufHolds(c, isA, buf, queues, base, c.T())
    requires forall w :: 0 <= w < c.waves ==> |queues[w]| <= if isA == c.aFirst then c.T() - c.Side(isA).issues else 0
    ensures TileHolds(c, isA, buf, base)
  {
    forall cell | 0 <= cell < c.Side(isA).cells ensures CellHolds(c, isA, buf[cell], cell, base, true) {
      assert CellHolds(c, isA, buf[cell], cell, base, Completed(c, isA, queues, cell, c.T()));
    }
  }

  /** Registers ready for the next tile: none of its loads issued, the cleared side zero. */
  lemma NextTile(c: Config, isA: bool, buf: seq<Slice>, queues: seq<seq<Fetch>>, base: nat)
    requires |buf| == c.Side(isA).cells
    requires forall w :: 0 <= w < |queues| ==> queues[w] == []
    requires c.Cleared(isA) ==> forall cell :: 0 <= cell < |buf| ==> buf[cell] == Blank
    ensures BufHolds(c, isA, buf, queues, base, 0)
  {
  }

  // ---------------------------------------------------------------- accumulators

  /** Going from `before` to `acc`, the accumulators of fragment q gain the product of column r. */
  ghost predicate GainedTerm(c: Config, ldsA: seq<Slice>, ldsB: seq<Slice>, q: nat, r: nat, before: seq<int>, acc: seq<int>)
    requires c.Valid() && |ldsA| == c.a.cells && |ldsB| == c.b.cells && r < c.tile
  {
    && |before| == |acc| == c.elems
    && forall e :: 0 <= e < c.elems ==> acc[e] == before[e] + if c.frag(e) != q then 0 else Term(c, ldsA, ldsB, e, r)
  }

  /** The accumulators of each fragment q have gained the products of the tile's first `lens[q]` columns. */
  ghost predicate Upto(c: Config, ldsA: seq<Slice>, ldsB: seq<Slice>, lens: seq<nat>, before: seq<int>, acc: seq<int>)
    requires c.Valid() && |ldsA| == c.a.cells && |ldsB| == c.b.cells
  {
    && |before| == |acc| == c.elems && |lens| == c.plane
    && (forall q :: 0 <= q < c.plane ==> lens[q] <= c.tile)
    && (forall e :: 0 <= e < c.elems ==> acc[e] == before[e] + TileSum(c, ldsA, ldsB, e, lens[c.frag(e)]))
  }

  lemma UptoNext(c: Config, ldsA: seq<Slice>, ldsB: seq<Slice>, lens: seq<nat>, q: nat, before: seq<int>, mid: seq<int>, acc: seq<int>)
    requires c.Valid() && |ldsA| == c.a.cells && |ldsB| == c.b.cells && Upto(c, ldsA, ldsB, lens, before, mid)
    requires q < c.plane && lens[q] < c.tile && GainedTerm(c, ldsA, ldsB, q, lens[q], mid, acc)
    ensures Upto(c, ldsA, ldsB, lens[q := lens[q] + 1], before, acc)
  {
  }

  /** `lens` after j mfmas of a call. */
  ghost predicate Counts(c: Config, j: nat, lens: seq<nat>) {
    c.plane > 0 && |lens| == c.plane && forall q :: 0 <= q < c.plane ==> lens[q] == Taken(c.plane, c.kInst, j, q)
  }

  lemma CountsNext(c: Config, j: nat, first: nat, q: nat, lens: seq<nat>)
    requires Counts(c, j, lens) && j < c.kRepeat * c.plane && 0 <= j % c.plane == q && first == j / c.plane * c.kInst
    ensures q < c.plane && lens[q] == first && Counts(c, j + 1, lens[q := first + c.kInst])
  {
    forall x | 0 <= x < c.plane { TakenNext(c.plane, c.kInst, c.kRepeat, j, x); }
    assert lens[q] == Taken(c.plane, c.kInst, j, q);
  }

  ghost predicate TileAdded(c: Config, ldsA: seq<Slice>, ldsB: seq<Slice>, before: seq<int>, acc: seq<int>)
    requires c.Valid() && |ldsA| == c.a.cells && |ldsB| == c.b.cells
  {
    && |before| == |acc| == c.elems
    && forall e :: 0 <= e < c.elems ==> acc[e] == before[e] + TileSum(c, ldsA, ldsB, e, c.tile)
  }

  lemma CountsStart(c: Config, ldsA: seq<Slice>, ldsB: seq<Slice>, acc: seq<int>)
    requires c.Valid() && |ldsA| == c.a.cells && |ldsB| == c.b.cells && |acc| == c.elems
    ensures var lens: seq<nat> := seq(c.plane, _ => 0); Counts(c, 0, lens) && Upto(c, ldsA, ldsB, lens, acc, acc)
    ensures c.kRepeat * c.plane >= 0
  {
    MulLe(0, c.kRepeat, c.plane);
    forall q | 0 <= q < c.plane { TakenEnds(c.plane, c.kInst, c.kRepeat, q); }
  }

  lemma CountsEnd(c: Config, ldsA: seq<Slice>, ldsB: seq<Slice>, lens: seq<nat>, before: seq<int>, acc: seq<int>)
    requires c.Valid() && |ldsA| == c.a.cells && |ldsB| == c.b.cells && c.kRepeat * c.plane >= 0
    requires Counts(c, c.kRepeat * c.plane, lens) && Upto(c, ldsA, ldsB, lens, before, acc)
    ensures TileAdded(c, ldsA, ldsB, before, acc)
  {
    forall q | 0 <= q < c.plane ensures lens[q] == c.tile { TakenEnds(c.plane, c.kInst, c.kRepeat, q); }
  }

  /** The in-range accumulators hold the products over the first `len` values of k. */
  ghost predicate ProductTo(c: Config, len: nat, acc: seq<int>) {
    && |acc| == c.elems
    && forall e :: 0 <= e < c.elems && c.rowOf(e) < c.a.sDim && c.colOf(e) < c.b.sDim ==>
         acc[e] == Dot(c, c.rowOf(e), c.colOf(e), len)
  }

  lemma ProductNext(c: Config, ldsA: seq<Slice>, ldsB: seq<Slice>, t: nat, base: nat, before: seq<int>, acc: seq<int>)
    requires c.Valid() && base == t * c.tile && TileHolds(c, true, ldsA, base) && TileHolds(c, false, ldsB, base)
    requires ProductTo(c, base, before) && TileAdded(c, ldsA, ldsB, before, acc)
    ensures ProductTo(c, base + c.tile, acc)
  {
    forall e | 0 <= e < c.elems && c.rowOf(e) < c.a.sDim && c.colOf(e) < c.b.sDim
      ensures acc[e] == Dot(c, c.rowOf(e), c.colOf(e), base + c.tile)
    {
      TileExact(c, ldsA, ldsB, t, base, e);
    }
  }

  lemma ProductEnds(c: Config, t: nat, base: nat, kIters: nat, acc: seq<int>)
    requires c.tile > 0 && kIters == CeilDiv(c.K(), c.tile) && base == t * c.tile && t + 1 >= kIters
    requires ProductTo(c, base + c.tile, acc)
    ensures ProductTo(c, c.K(), acc)
  {
    TilesCoverK(c, t, base, kIters);
    forall e | 0 <= e < c.elems { PastK(c, c.rowOf(e), c.colOf(e), base + c.tile); }
  }

  lemma SliceInside(c: Config, j: nat)
    requires c.plane > 0 && c.tile == c.kRepeat * c.kInst && j < c.kRepeat * c.plane
    ensures 0 <= j / c.plane * c.kInst && j / c.plane * c.kInst + c.kInst <= c.tile
    ensures 0 <= j % c.plane < c.plane
  {
    var ik := j / c.plane;
    DivMod(j, c.plane);
    DivLt(j, c.plane, c.kRepeat);
    MulLe(0, ik, c.kInst);
    Distribute(ik, 1, c.kInst);
    MulLe(ik + 1, c.kRepeat, c.kInst);
  }

  // ---------------------------------------------------------------- the workgroup

  class GemmPipelineFlat {
    const c: Config
    const a: GldIterator
    const b: GldIterator
    /** The loads every wave has under way. */
    var queues: seq<seq<Fetch>>
    /** The LDS tiles, and what `load_all` last read from them. */
    var ldsA: seq<Slice>
    var ldsB: seq<Slice>
    var sldA: seq<Slice>
    var sldB: seq<Slice>
    var acc: seq<int>
    /** The tile being loaded and how many of its loads have been issued. */
    ghost var base: nat
    ghost var issued: nat

    ghost predicate Valid() reads this, a, b {
      && c.Valid() && a != b && a.layout == c.a && b.layout == c.b && a.Valid() && b.Valid()
      && |acc| == c.elems && |ldsA| == c.a.cells && |ldsB| == c.b.cells
      && issued <= c.T()
      && QueuesHold(c, queues, base, issued)
      && BufHolds(c, true, a.buf, queues, base, issued) && BufHolds(c, false, b.buf, queues, base, issued)
    }

    constructor (c: Config, a: GldIterator, b: GldIterator)
      requires c.Valid() && a != b && a.layout == c.a && b.layout == c.b && a.Valid() && b.Valid()
      requires forall cell :: 0 <= cell < c.a.cells ==> a.buf[cell] == Blank
      requires forall cell :: 0 <= cell < c.b.cells ==> b.buf[cell] == Blank
      ensures Valid() && this.c == c && this.a == a && this.b == b
      ensures base == issued == 0
    {
      this.c, this.a, this.b := c, a, b;
      queues := seq(c.waves, _ => []);
      ldsA, ldsB := seq(c.a.cells, _ => Blank), seq(c.b.cells, _ => Blank);
      sldA, sldB, acc := [], [], seq(c.elems, _ => 0);
      base, issued := 0, 0;
      new;
      NextTile(c, true, a.buf, queues, 0);
      NextTile(c, false, b.buf, queues, 0);
    }

    /** The oldest load of wave w completes. */
    method RetireOne(w: nat)
      requires Valid() && w < c.waves && queues[w] != []
      modifies this`queues, a`buf, b`buf
      ensures Valid() && queues == old(queues)[w := old(queues)[w][1..]]
    {
      var load := queues[w][0];
      assert IsLoad(c, load, base, issued - |queues[w]|);
      ghost var was, wasA, wasB := queues, a.buf, b.buf;
      RetireQueues(c, queues, base, issued, w);
      if load.isA { a.buf := Filled(a.layout, a.buf, w, load); } else { b.buf := Filled(b.layout, b.buf, w, load); }
      queues := queues[w := queues[w][1..]];
      RetireHolds(c, true, wasA, was, base, issued, w, a.buf, queues);
      RetireHolds(c, false, wasB, was, base, issued, w, b.buf, queues);
    }

    ghost predicate NoMore(before: seq<seq<Fetch>>) reads this {
      |queues| == |before| && forall w :: 0 <= w < |queues| ==> |queues[w]| <= |before[w]|
    }

    /** Any number of loads of any waves complete. */
    method Drift()
      requires Valid()
      modifies this`queues, a`buf, b`buf
      ensures Valid() && NoMore(old(queues))
    {
      var n: nat := *;
      while n > 0
        invariant Valid() && NoMore(old(queues))
      {
        var w: int := *;
        if 0 <= w < c.waves && queues[w] != [] { RetireOne(w); }
        n := n - 1;
      }
    }

    /** `gld_fence(n)`, in every wave. */
    method Fence(n: nat)
      requires Valid()
      modifies this`queues, a`buf, b`buf
      ensures Valid() && NoMore(old(queues)) && forall w :: 0 <= w < c.waves ==> |queues[w]| <= n
    {
      Drift();
      for w := 0 to c.waves
        invariant Valid() && NoMore(old(queues))
        invariant forall u :: 0 <= u < w ==> |queues[u]| <= n
      {
        while |queues[w]| > n
          invariant Valid() && NoMore(old(queues))
          invariant forall u :: 0 <= u < w ==> |queues[u]| <= n
          decreases |queues[w]|
        {
          RetireOne(w);
        }
      }
    }

    /** `issue(i)` of one side, in every wave. */
    method Issue(isA: bool, i: nat, ghost t: nat)
      requires Valid() && i < c.Side(isA).issues && c.Pos(isA, i) == issued && base == t * c.tile
      requires (if isA then a else b).baseOffset == base
      modifies this`queues, this`issued
      ensures Valid() && issued == old(issued) + 1 && QueuesInside(c, queues)
    {
      var side := if isA then a else b;
      var load, was := Fetch(isA, i, side.baseOffset, side.flags), queues;
      queues := seq(|queues|, w requires 0 <= w < |was| => was[w] + [load]);
      issued := issued + 1;
      assert IsLoad(c, load, base, issued - 1);
      IssueHolds(c, true, a.buf, was, base, issued - 1, queues);
      IssueHolds(c, false, b.buf, was, base, issued - 1, queues);
      QueuesStayInside(c, queues, t, base, issued);
    }

    /** `gld_a()` or `gld_b()`. */
    method LoadSide(isA: bool, ghost t: nat)
      requires Valid() && issued == c.Pos(isA, 0) && base == t * c.tile
      requires (if isA then a else b).baseOffset == base
      modifies this`queues, this`issued, a`buf, b`buf
      ensures Valid() && issued == c.Pos(isA, 0) + c.Side(isA).issues
    {
      for i := 0 to c.Side(isA).issues
        invariant Valid() && issued == c.Pos(isA, i)
      {
        Issue(isA, i, t);
        Drift();
      }
    }

    /** The fences and stores after a tile's loads, in the order of `gld_x_first`. */
    method StoreTile()
      requires Valid() && issued == c.T()
      modifies this`queues, this`ldsA, this`ldsB, a`buf, b`buf
      ensures Valid() && TileHolds(c, true, ldsA, base) && TileHolds(c, false, ldsB, base)
      ensures forall w :: 0 <= w < c.waves ==> queues[w] == []
    {
      if c.aFirst {
        Fence(c.b.issues);
        AllArrived(c, true, a.buf, queues, base);
        ldsA := a.buf;
        Fence(0);
        AllArrived(c, false, b.buf, queues, base);
        ldsB := b.buf;
      } else {
        Fence(c.a.issues);
        AllArrived(c, false, b.buf, queues, base);
        ldsB := b.buf;
        Fence(0);
        AllArrived(c, true, a.buf, queues, base);
        ldsA := a.buf;
      }
    }

    /** GLD_BUF_CLEAR, after which the next tile may be loaded. */
    method Clear()
      requires Valid() && forall w :: 0 <= w < c.waves ==> queues[w] == []
      modifies this`base, this`issued, a`buf, b`buf
      ensures Valid() && base == old(base) + c.tile && issued == 0
    {
      if c.clearB { b.ClearBuf(); } else { a.ClearBuf(); }
      base, issued := base + c.tile, 0;
      NextTile(c, true, a.buf, queues, base);
      NextTile(c, false, b.buf, queues, base);
    }

    /** The product of column r enters the accumulators of fragment q. */
    method AddTerms(q: nat, r: nat, ghost lens: seq<nat>, ghost before: seq<int>)
      requires Valid() && |sldA| == c.a.cells && |sldB| == c.b.cells && r < c.tile
      requires Upto(c, sldA, sldB, lens, before, acc) && q < c.plane && lens[q] == r
      modifies this`acc
      ensures |acc| == c.elems && Upto(c, sldA, sldB, lens[q := r + 1], before, acc)
    {
      for e := 0 to c.elems
        invariant |acc| == c.elems
        invariant forall d :: 0 <= d < c.elems ==>
          acc[d] == old(acc[d]) + if c.frag(d) != q || d >= e then 0 else Term(c, sldA, sldB, d, r)
      {
        if c.frag(e) == q { acc := acc[e := acc[e] + Term(c, sldA, sldB, e, r)]; }
      }
      UptoNext(c, sldA, sldB, lens, q, before, old(acc), acc);
    }

    /** One mfma: the products of a slice of the tile enter the accumulators of fragment q. */
    method Mfma(first: nat, q: nat, ghost lens: seq<nat>, ghost before: seq<int>)
      requires Valid() && |sldA| == c.a.cells && |sldB| == c.b.cells && first + c.kInst <= c.tile
      requires Upto(c, sldA, sldB, lens, before, acc) && q < c.plane && lens[q] == first
      modifies this`acc
      ensures Valid() && Upto(c, sldA, sldB, lens[q := first + c.kInst], before, acc)
    {
      ghost var current := lens;
      for k := 0 to c.kInst
        invariant |acc| == c.elems && current == lens[q := first + k] && Upto(c, sldA, sldB, current, before, acc)
      {
        AddTerms(q, first + k, current, before);
        current := current[q := first + k + 1];
      }
    }

    /** The products of `gemm_prio_fma` over i_3d, while loads go on completing. */
    method MultiplyTile()
      requires Valid() && |sldA| == c.a.cells && |sldB| == c.b.cells
      modifies this`queues, this`acc, a`buf, b`buf
      ensures Valid() && NoMore(old(queues)) && TileAdded(c, sldA, sldB, old(acc), acc)
    {
      CountsStart(c, sldA, sldB, acc);
      ghost var lens: seq<nat> := seq(c.plane, _ => 0);
      var total := c.kRepeat * c.plane;
      for j := 0 to total
        invariant Valid() && NoMore(old(queues)) && Counts(c, j, lens) && Upto(c, sldA, sldB, lens, old(acc), acc)
      {
        Drift();
        SliceInside(c, j);
        var first, q := j / c.plane * c.kInst, j % c.plane;
        CountsNext(c, j, first, q, lens);
        Mfma(first, q, lens, old(acc));
        lens := lens[q := first + c.kInst];
      }
      CountsEnd(c, sldA, sldB, lens, old(acc), acc);
    }

    /** `gemm_prio_fma`: the tile in LDS is multiplied while, in a hot iteration, the next one is loaded. */
    method GemmPrioFma(hot: bool, ghost current: nat, ghost t: nat)
      requires Valid() && TileHolds(c, true, ldsA, current) && TileHolds(c, false, ldsB, current)
      requires issued == 0 && a.baseOffset == b.baseOffset == base == t * c.tile
      modifies this`queues, this`issued, this`base, this`ldsA, this`ldsB, this`sldA, this`sldB, this`acc, a, b
      ensures Valid()
      ensures TileAdded(c, old(ldsA), old(ldsB), old(acc), acc)
      ensures hot ==> TileHolds(c, true, ldsA, old(base)) && TileHolds(c, false, ldsB, old(base))
      ensures hot ==> base == old(base) + c.tile && issued == 0 && a.baseOffset == b.baseOffset == base
    {
      if hot {
        LoadSide(c.aFirst, t);
        LoadSide(!c.aFirst, t);
      }
      sldA, sldB := ldsA, ldsB;
      MultiplyTile();
      if hot {
        a.MoveSliceWindow(c.tile);
        b.MoveSliceWindow(c.tile);
        StoreTile();
        Clear();
      }
    }

    /** Between calls: tile t is in LDS, the products of the tiles before it are complete, and the windows stand
        one tile further. */
    ghost predicate AtTile(t: nat, current: nat) reads this, a, b {
      && Valid() && current == t * c.tile && issued == 0
      && a.baseOffset == b.baseOffset == base == current + c.tile
      && TileHolds(c, true, ldsA, current) && TileHolds(c, false, ldsB, current)
      && ProductTo(c, current, acc)
    }

    /** One `gemm_` call extends the products by its tile. */
    method Gemm(hot: bool, ghost t: nat, ghost current: nat)
      requires AtTile(t, current)
      modifies this`queues, this`issued, this`base, this`ldsA, this`ldsB, this`sldA, this`sldB, this`acc, a, b
      ensures ProductTo(c, current + c.tile, acc)
      ensures hot ==> AtTile(t + 1, current + c.tile)
    {
      Distribute(t, 1, c.tile);
      GemmPrioFma(hot, current, t + 1);
      ProductNext(c, old(ldsA), old(ldsB), t, current, old(acc), acc);
    }

    /** The prologue: each side is loaded and moved on, the accumulators cleared, the first tile stored. */
    method Prologue()
      requires Valid() && base == issued == a.baseOffset == b.baseOffset == 0
      modifies this`queues, this`issued, this`base, this`ldsA, this`ldsB, this`acc, a, b
      ensures AtTile(0, 0)
    {
      LoadSide(c.aFirst, 0);
      if c.aFirst { a.MoveSliceWindow(c.tile); } else { b.MoveSliceWindow(c.tile); }
      LoadSide(!c.aFirst, 0);
      if c.aFirst { b.MoveSliceWindow(c.tile); } else { a.MoveSliceWindow(c.tile); }
      acc := seq(c.elems, _ => 0);
      StoreTile();
      Clear();
    }

    /** The loop of `operator()`: tile after tile, until the one in LDS is the last. */
    method Loop(kIters: nat) returns (ghost t: nat, ghost current: nat)
      requires AtTile(0, 0)
      modifies this`queues, this`issued, this`base, this`ldsA, this`ldsB, this`sldA, this`sldB, this`acc, a, b
      ensures AtTile(t, current) && t + 1 >= kIters && (t == 0 || t < kIters)
    {
      t, current := 0, 0;
      var i := 1;
      while i < kIters
        invariant AtTile(t, current) && t == i - 1 && (t == 0 || t < kIters)
      {
        Gemm(true, t, current);
        t, current := t + 1, current + c.tile;
        i := i + 1;
      }
    }

    /** `operator()`: whatever K, the in-range outputs are the full products. */
    method Run(kIters: nat)
      requires Valid() && base == issued == a.baseOffset == b.baseOffset == 0
      requires kIters == CeilDiv(c.K(), c.tile)
      modifies this`queues, this`issued, this`base, this`ldsA, this`ldsB, this`sldA, this`sldB, this`acc, a, b
      ensures ProductTo(c, c.K(), acc)
    {
      Prologue();
      ghost var t, current := Loop(kIters);
      Gemm(false, t, current);
      ProductEnds(c, t, current, kIters, acc);
    }
  }

  /** The tiles of the loop and the tail reach K; with K = 0 the tail still multiplies one tile, of zeros. */
  lemma TilesCoverK(c: Config, t: nat, done: nat, kIters: nat)
    requires c.tile > 0 && kIters == CeilDiv(c.K(), c.tile) && done == t * c.tile && t + 1 >= kIters
    ensures done + c.tile >= c.K()
  {
    Distribute(t, 1, c.tile);
    DivMod(c.K() + c.tile - 1, c.tile);
    MulLe(kIters, t + 1, c.tile);
  }
}
