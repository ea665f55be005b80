/** What every step of the flat pipeline keeps: the accumulators, up to the full product. */
module FlatWavesSums {
  import opened Arith
  import opened LoadOrder
  import opened MfmaOrder
  import opened PipelineFlat
  import opened FlatWaves
  import opened FlatWavesTiles

  /** Up to which k accumulator fragment q sums. */
  function Covered(g: Machine, v: Wave, q: nat): nat
    requires g.c.plane > 0
  {
    if v.round == 0 then 0
    else if v.stage.Mfma? then g.Start(v.round - 1) + Taken(g.c.plane, g.c.kInst, v.stage.j, q)
    else if Consumed(v.stage) || v.stage == Done then g.Start(v.round)
    else g.Start(v.round - 1)
  }

  predicate InRange(g: Machine, e: nat) { g.c.rowOf(e) < g.c.a.sDim && g.c.colOf(e) < g.c.b.sDim }

  /** Element e of wave w is the product over the first `len` values of k. */
  ghost predicate IsProduct(g: Machine, w: nat, acc: seq<int>, e: nat, len: nat) {
    e < |acc| && (g.waveOf(e) == w && InRange(g, e) ==> acc[e] == Dot(g.c, g.c.rowOf(e), g.c.colOf(e), len))
  }

  ghost predicate SumsInv(g: Machine, w: nat, v: Wave)
    requires g.c.plane > 0
  {
    |v.acc| == g.c.elems && forall e :: 0 <= e < g.c.elems ==> IsProduct(g, w, v.acc, e, Covered(g, v, g.c.frag(e)))
  }

  lemma {:induction false} StartIsProduct(g: Machine, t: nat)
    ensures g.Start(t) == t * g.c.tile
  {
    if t > 0 {
      StartIsProduct(g, t - 1);
      Distribute(t - 1, 1, g.c.tile);
    }
  }

  /** A slice whose operands come from one tile extends the product. */
  lemma {:induction false} SliceExtends(c: Config, a: seq<Slice>, b: seq<Slice>, base: nat, e: nat, first: nat, len: nat)
    requires c.Valid() && |a| == c.a.cells && |b| == c.b.cells && e < c.elems && first + len <= c.tile
    requires forall r :: 0 <= r < c.tile ==> IsTerm(c, a, b, base, c.rowOf(e), c.colOf(e), r)
    ensures Dot(c, c.rowOf(e), c.colOf(e), base + first + len)
         == Dot(c, c.rowOf(e), c.colOf(e), base + first) + SliceSum(c, a, b, e, first, len)
  {
    if len > 0 {
      SliceExtends(c, a, b, base, e, first, len - 1);
      assert IsTerm(c, a, b, base, c.rowOf(e), c.colOf(e), first + len - 1);
      assert base + first + len - 1 == base + (first + len - 1);
    }
  }

  lemma SliceOfTile(c: Config, a: seq<Slice>, b: seq<Slice>, t: nat, base: nat, e: nat, first: nat, len: nat, x: int)
    requires c.Valid() && e < c.elems
    requires base == t * c.tile && TileHolds(c, true, a, base) && TileHolds(c, false, b, base) && first + c.kInst <= c.tile
    requires len == base + first && x == SliceSum(c, a, b, e, first, c.kInst)
    ensures Extends(c, e, len, x)
  {
    if c.rowOf(e) < c.a.sDim && c.colOf(e) < c.b.sDim {
      forall r | 0 <= r < c.tile ensures IsTerm(c, a, b, base, c.rowOf(e), c.colOf(e), r) {
        TermExact(c, a, b, t, base, e, r);
      }
      SliceExtends(c, a, b, base, e, first, c.kInst);
      assert base + first + c.kInst == len + c.kInst;
    }
  }

  /** Adding x extends an in-range element's product by a slice. */
  ghost predicate Extends(c: Config, e: nat, len: nat, x: int) {
    c.rowOf(e) < c.a.sDim && c.colOf(e) < c.b.sDim ==>
      Dot(c, c.rowOf(e), c.colOf(e), len + c.kInst) == Dot(c, c.rowOf(e), c.colOf(e), len) + x
  }

  /** What one mfma does to element e. */
  lemma AccumulateAt(g: Machine, w: nat, acc: seq<int>, q: nat, a: seq<Slice>, b: seq<Slice>, first: nat, e: nat)
    requires g.c.Valid() && |acc| == g.c.elems && |a| == g.c.a.cells && |b| == g.c.b.cells && first + g.c.kInst <= g.c.tile
    requires e < g.c.elems
    ensures |Accumulate(g, w, acc, q, a, b, first)| == g.c.elems
    ensures Accumulate(g, w, acc, q, a, b, first)[e]
         == acc[e] + if g.waveOf(e) == w && g.c.frag(e) == q then SliceSum(g.c, a, b, e, first, g.c.kInst) else 0
  {
  }

  /** The in-range elements of fragment q in wave w gain the products over a slice of k from `len` on, the others nothing. */
  ghost predicate Adds(g: Machine, w: nat, acc: seq<int>, acc': seq<int>, q: nat, len: nat, e: nat) {
    && e < |acc| == |acc'|
    && (g.waveOf(e) == w && InRange(g, e) ==>
          acc'[e] == acc[e] + if g.c.frag(e) != q then 0 else
            Dot(g.c, g.c.rowOf(e), g.c.colOf(e), len + g.c.kInst) - Dot(g.c, g.c.rowOf(e), g.c.colOf(e), len))
  }

  ghost predicate AllAdd(g: Machine, w: nat, acc: seq<int>, acc': seq<int>, q: nat, len: nat) {
    |acc'| == g.c.elems && forall e :: 0 <= e < g.c.elems ==> Adds(g, w, acc, acc', q, len, e)
  }

  /** An mfma on a slice of the tile at `base` does that. */
  lemma AccumulateAdds(g: Machine, w: nat, acc: seq<int>, q: nat, a: seq<Slice>, b: seq<Slice>, t: nat, base: nat, first: nat)
    requires g.c.Valid() && |acc| == g.c.elems && first + g.c.kInst <= g.c.tile
    requires base == g.Start(t) && TileHolds(g.c, true, a, base) && TileHolds(g.c, false, b, base)
    ensures AllAdd(g, w, acc, Accumulate(g, w, acc, q, a, b, first), q, base + first)
  {
    var acc', len := Accumulate(g, w, acc, q, a, b, first), base + first;
    forall e | 0 <= e < g.c.elems ensures Adds(g, w, acc, acc', q, len, e) {
      ElementAdds(g, w, acc, acc', q, a, b, t, base, first, len, e);
    }
  }

  lemma ElementAdds(g: Machine, w: nat, acc: seq<int>, acc': seq<int>, q: nat, a: seq<Slice>, b: seq<Slice>,
                    t: nat, base: nat, first: nat, len: nat, e: nat)
    requires g.c.Valid() && |acc| == g.c.elems && first + g.c.kInst <= g.c.tile && len == base + first && e < g.c.elems
    requires base == g.Start(t) && TileHolds(g.c, true, a, base) && TileHolds(g.c, false, b, base)
    requires acc' == Accumulate(g, w, acc, q, a, b, first)
    ensures Adds(g, w, acc, acc', q, len, e)
  {
    StartIsProduct(g, t);
    var x := SliceSum(g.c, a, b, e, first, g.c.kInst);
    AccumulateAt(g, w, acc, q, a, b, first, e);
    SliceOfTile(g.c, a, b, t, base, e, first, len, x);
    ExtendsAdds(g, w, acc, acc', q, len, e, x);
  }

  lemma ExtendsAdds(g: Machine, w: nat, acc: seq<int>, acc': seq<int>, q: nat, len: nat, e: nat, x: int)
    requires e < |acc| == |acc'| && Extends(g.c, e, len, x)
    requires acc'[e] == acc[e] + if g.waveOf(e) == w && g.c.frag(e) == q then x else 0
    ensures Adds(g, w, acc, acc', q, len, e)
  {
  }

  lemma FragmentTiles(g: Machine, v: Wave, fA: nat, fB: nat)
    requires ShapeOf(g, v) && FragsInv(g, v) && v.stage.Mfma? && fA < g.FragsA() && fB < g.FragsB()
    ensures v.round > 0
    ensures TileHolds(g.c, true, v.fragA[fA], g.Start(v.round - 1)) && TileHolds(g.c, false, v.fragB[fB], g.Start(v.round - 1))
  {
  }

  lemma MultiplySums(g: Machine, w: nat, v: Wave)
    requires g.Valid() && ShapeOf(g, v) && FragsInv(g, v) && v.stage.Mfma? && v.stage.j < g.Total() && SumsInv(g, w, v)
    ensures SumsInv(g, w, Multiply(g, w, v))
  {
    MultiplyAdds(g, w, v);
    SumsGrow(g, w, v, Multiply(g, w, v), v.stage.j % g.c.plane, FirstColumn(g, v.stage.j));
  }

  lemma MultiplyAdds(g: Machine, w: nat, v: Wave)
    requires g.Valid() && ShapeOf(g, v) && FragsInv(g, v) && v.stage.Mfma? && v.stage.j < g.Total()
    ensures v.round > 0 && 0 <= v.stage.j % g.c.plane
    ensures AllAdd(g, w, v.acc, Multiply(g, w, v).acc, v.stage.j % g.c.plane, g.Start(v.round - 1) + FirstColumn(g, v.stage.j))
  {
    var j := v.stage.j;
    var fA, fB := OperandA(g, j), OperandB(g, j);
    FragmentTiles(g, v, fA, fB);
    AccumulateAdds(g, w, v.acc, j % g.c.plane, v.fragA[fA], v.fragB[fB], v.round - 1, g.Start(v.round - 1), FirstColumn(g, j));
  }

  /** With product j of a call added, what its fragment covers grows by the slice. */
  lemma SumsGrow(g: Machine, w: nat, v: Wave, v': Wave, q: nat, first: nat)
    requires g.c.plane > 0 && (forall e :: 0 <= e < g.c.elems ==> g.c.frag(e) < g.c.plane)
    requires SumsInv(g, w, v) && v.stage.Mfma? && v.stage.j < g.Total() && v.round > 0
    requires q == v.stage.j % g.c.plane && first == v.stage.j / g.c.plane * g.c.kInst
    requires v'.round == v.round && v'.stage == Mfma(v.stage.j + 1)
    requires AllAdd(g, w, v.acc, v'.acc, q, g.Start(v.round - 1) + first)
    ensures SumsInv(g, w, v')
  {
    forall e | 0 <= e < g.c.elems ensures IsProduct(g, w, v'.acc, e, Covered(g, v', g.c.frag(e))) {
      assert IsProduct(g, w, v.acc, e, Covered(g, v, g.c.frag(e)));
      assert Adds(g, w, v.acc, v'.acc, q, g.Start(v.round - 1) + first, e);
      CoveredNext(g, v, v', g.c.frag(e), q, first);
    }
  }

  lemma CoveredNext(g: Machine, v: Wave, v': Wave, f: nat, q: nat, first: nat)
    requires g.c.plane > 0 && f < g.c.plane && v.stage.Mfma? && v.stage.j < g.Total() && v.round > 0
    requires q == v.stage.j % g.c.plane && first == v.stage.j / g.c.plane * g.c.kInst
    requires v'.round == v.round && v'.stage == Mfma(v.stage.j + 1)
    ensures Covered(g, v', f) == if f == q then Covered(g, v, f) + g.c.kInst else Covered(g, v, f)
    ensures f == q ==> Covered(g, v, f) == g.Start(v.round - 1) + first
  {
    TakenNext(g.c.plane, g.c.kInst, g.c.kRepeat, v.stage.j, f);
  }

  predicate Multiplied(stage: Stage) { Consumed(stage) || stage == Done }

  /** Instructions outside the products leave the accumulators and what they cover alone. */
  lemma SameSums(g: Machine, w: nat, v: Wave, v': Wave)
    requires g.c.plane > 0 && SumsInv(g, w, v) && v'.acc == v.acc && v'.round == v.round
    requires v'.stage == v.stage || (!v.stage.Mfma? && !v'.stage.Mfma? && Multiplied(v'.stage) == Multiplied(v.stage)) || v.round == 0
    ensures SumsInv(g, w, v')
  {
    forall e | 0 <= e < g.c.elems ensures IsProduct(g, w, v'.acc, e, Covered(g, v', g.c.frag(e))) {
      assert IsProduct(g, w, v.acc, e, Covered(g, v, g.c.frag(e)));
    }
  }

  lemma NextRoundSums(g: Machine, w: nat, v: Wave, v': Wave)
    requires g.c.plane > 0 && SumsInv(g, w, v) && v'.acc == v.acc && v'.round == v.round + 1
    requires v.stage == SecondStore && v'.stage == Issue(0)
    ensures SumsInv(g, w, v')
  {
    forall e | 0 <= e < g.c.elems ensures IsProduct(g, w, v'.acc, e, Covered(g, v', g.c.frag(e))) {
      assert IsProduct(g, w, v.acc, e, Covered(g, v, g.c.frag(e)));
    }
  }

  /** Begin and end of a call's products. */
  lemma CallSums(g: Machine, w: nat, v: Wave, v': Wave)
    requires g.Valid() && SumsInv(g, w, v) && v'.acc == v.acc && v'.round == v.round > 0
    requires (v.stage == SldFence && v'.stage == Mfma(0))
          || (v.stage == Mfma(g.Total()) && (Consumed(v'.stage) || v'.stage == Done))
    ensures SumsInv(g, w, v')
  {
    forall e | 0 <= e < g.c.elems ensures IsProduct(g, w, v'.acc, e, Covered(g, v', g.c.frag(e))) {
      CallCovered(g, v, v', g.c.frag(e));
      assert IsProduct(g, w, v.acc, e, Covered(g, v, g.c.frag(e)));
    }
  }

  lemma CallCovered(g: Machine, v: Wave, v': Wave, f: nat)
    requires g.c.plane > 0 && f < g.c.plane && g.c.tile == g.c.kRepeat * g.c.kInst && v'.round == v.round > 0
    requires (v.stage == SldFence && v'.stage == Mfma(0))
          || (v.stage == Mfma(g.Total()) && (Consumed(v'.stage) || v'.stage == Done))
    ensures Covered(g, v', f) == Covered(g, v, f)
  {
    TakenEnds(g.c.plane, g.c.kInst, g.c.kRepeat, f);
  }
}
