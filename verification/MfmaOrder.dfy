/** The order in which the unrolled loop over (k, row fragment, column fragment) visits accumulators. */
module MfmaOrder {
  import opened Arith

  /** How many mfmas have gone into accumulator q when j products over `plane` accumulators are done. */
  function SlicesDone(plane: nat, j: nat, q: nat): nat
    requires plane > 0
  {
    DivMod(j, plane);
    j / plane + if q < j % plane then 1 else 0
  }

  lemma SlicesNext(plane: nat, j: nat, q: nat)
    requires plane > 0 && q < plane
    ensures j % plane == q ==> SlicesDone(plane, j, q) == j / plane && SlicesDone(plane, j + 1, q) == j / plane + 1
    ensures j % plane != q ==> SlicesDone(plane, j + 1, q) == SlicesDone(plane, j, q)
  {
    DivMod(j, plane);
    if j % plane + 1 < plane {
      DivModUnique(j + 1, plane, j / plane, j % plane + 1);
    } else {
      Distribute(j / plane, 1, plane);
      DivModUnique(j + 1, plane, j / plane + 1, 0);
    }
  }

  lemma SlicesEnds(plane: nat, repeats: nat, q: nat)
    requires plane > 0 && q < plane
    ensures SlicesDone(plane, 0, q) == 0 && repeats * plane >= 0 && SlicesDone(plane, repeats * plane, q) == repeats
  {
    MulLe(0, repeats, plane);
    DivModUnique(0, plane, 0, 0);
    DivModUnique(repeats * plane, plane, repeats, 0);
  }

  /** The part of a tile that accumulator q has taken in after j mfmas of `kInst` columns each. */
  function Taken(plane: nat, kInst: nat, j: nat, q: nat): nat
    requires plane > 0
  {
    MulLe(0, SlicesDone(plane, j, q), kInst);
    SlicesDone(plane, j, q) * kInst
  }

  lemma TakenNext(plane: nat, kInst: nat, kRepeat: nat, j: nat, q: nat)
    requires plane > 0 && j < kRepeat * plane && q < plane
    ensures Taken(plane, kInst, j, q) <= kRepeat * kInst && Taken(plane, kInst, j + 1, q) <= kRepeat * kInst
    ensures Taken(plane, kInst, j + 1, q) == Taken(plane, kInst, j, q) + if q == j % plane then kInst else 0
    ensures q == j % plane ==> Taken(plane, kInst, j, q) == j / plane * kInst
  {
    var ik := j / plane;
    DivMod(j, plane);
    DivLt(j, plane, kRepeat);
    SlicesNext(plane, j, q);
    Distribute(ik, 1, kInst);
    MulLe(SlicesDone(plane, j, q), kRepeat, kInst);
    MulLe(SlicesDone(plane, j + 1, q), kRepeat, kInst);
  }

  lemma TakenEnds(plane: nat, kInst: nat, kRepeat: nat, q: nat)
    requires plane > 0 && q < plane
    ensures Taken(plane, kInst, 0, q) == 0
    ensures kRepeat * plane >= 0 && Taken(plane, kInst, kRepeat * plane, q) == kRepeat * kInst
  {
    SlicesEnds(plane, kRepeat, q);
  }
}
