/** Kernel choice and grid setup of `f4gemm.hpp`. */
module Launch {
  import opened Arith
  import opened TileScheduler

  /** A manifest row; the flags are integers there. */
  datatype Config = Config(tileM: nat, tileN: nat, splitK: int, bpreshuffle: int)

  /** What `select_kernel` is asked for; `log2KSplit` < 0 leaves the split to it. */
  datatype Query = Query(m: nat, n: nat, numCu: nat, log2KSplit: int, bpreshuffle: int)

  predicate Eligible(q: Query, cfg: Config) {
    && cfg.bpreshuffle == (if q.bpreshuffle == 0 then 0 else 1)
    && cfg.splitK >= (if q.log2KSplit > 0 then 1 else 0)
    && !(cfg.tileM == 128 && cfg.tileN == 512 && q.n % cfg.tileN != 0)
  }

  /** The splits tried for a configuration. */
  function Splits(q: Query, cfg: Config): (s: seq<nat>)
    ensures |s| > 0
  {
    if q.log2KSplit >= 0 && cfg.splitK != 0 then [Pow2(q.log2KSplit)]
    else if cfg.splitK != 0 then [2, 4, 8, 16]
    else [1]
  }

  function Workgroups(q: Query, cfg: Config, split: nat): nat
    requires cfg.tileM > 0 && cfg.tileN > 0
  {
    MulLe(0, CeilDiv(q.m, cfg.tileM), CeilDiv(q.n, cfg.tileN));
    MulLe(0, CeilDiv(q.m, cfg.tileM) * CeilDiv(q.n, cfg.tileN), split);
    CeilDiv(q.m, cfg.tileM) * CeilDiv(q.n, cfg.tileN) * split
  }

  function Rounds(q: Query, cfg: Config, split: nat): nat
    requires cfg.tileM > 0 && cfg.tileN > 0 && q.numCu > 0
  {
    CeilDiv(Workgroups(q, cfg, split), q.numCu)
  }

  /** No 32-bit overflow in any count that is computed. */
  ghost predicate InRange(q: Query, cfgs: seq<Config>) {
    && q.numCu > 0
    && (forall i :: 0 <= i < |cfgs| ==> cfgs[i].tileM > 0 && cfgs[i].tileN > 0)
    && forall i, split :: 0 <= i < |cfgs| && Eligible(q, cfgs[i]) && split in Splits(q, cfgs[i]) ==>
         Workgroups(q, cfgs[i], split) + q.numCu < 0x8000_0000
  }

  /** A configuration and a split. */
  datatype Pair = Pair(index: nat, split: nat)

  /** The pairs `select_kernel` compares, for the first n configurations. */
  ghost predicate Candidate(q: Query, cfgs: seq<Config>, n: nat, p: Pair) {
    p.index < n && p.index < |cfgs| && Eligible(q, cfgs[p.index]) && p.split in Splits(q, cfgs[p.index])
  }

  function PairRounds(q: Query, cfgs: seq<Config>, p: Pair): nat
    requires q.numCu > 0 && p.index < |cfgs| && cfgs[p.index].tileM > 0 && cfgs[p.index].tileN > 0
  {
    Rounds(q, cfgs[p.index], p.split)
  }

  /** The choice so far is a tried pair with the fewest rounds, or none when nothing has been tried. */
  ghost predicate Best(q: Query, cfgs: seq<Config>, tried: set<Pair>, selected: int, split: nat, round: nat) {
    && InRange(q, cfgs)
    && (forall p :: p in tried ==> Candidate(q, cfgs, |cfgs|, p))
    && (if selected == -1 then tried == {} && round == 0xffff_ffff && split == 1
        else selected >= 0 && Pair(selected, split) in tried && round == PairRounds(q, cfgs, Pair(selected, split)))
    && (forall p :: p in tried ==> round <= PairRounds(q, cfgs, p))
  }

  lemma BestNext(q: Query, cfgs: seq<Config>, tried: set<Pair>, selected: int, split: nat, round: nat, p: Pair)
    requires Best(q, cfgs, tried, selected, split, round) && Candidate(q, cfgs, |cfgs|, p)
    ensures PairRounds(q, cfgs, p) < 0x8000_0000
    ensures PairRounds(q, cfgs, p) <= round ==> Best(q, cfgs, tried + {p}, p.index, p.split, PairRounds(q, cfgs, p))
    ensures PairRounds(q, cfgs, p) >= round ==> Best(q, cfgs, tried + {p}, selected, split, round)
  {
    var w := Workgroups(q, cfgs[p.index], p.split);
    assert w + q.numCu < 0x8000_0000;
    DivMod(w + q.numCu - 1, q.numCu);
    QuotientSmaller(w + q.numCu - 1, q.numCu);
  }

  lemma QuotientSmaller(x: nat, d: nat)
    requires d > 0
    ensures x / d <= x
  {
    DivMod(x, d);
    MulLe(1, d, x / d);
  }

  /** Rounding up overshoots by less than one round. */
  lemma IdleUnits(q: Query, cfg: Config, split: nat)
    requires q.numCu > 0 && cfg.tileM > 0 && cfg.tileN > 0
    ensures 0 <= Rounds(q, cfg, split) * q.numCu - Workgroups(q, cfg, split) < q.numCu
  {
    DivMod(Workgroups(q, cfg, split) + q.numCu - 1, q.numCu);
  }

  /** `select_kernel`'s running choice: configuration, split, rounds, idle units in the last round, and efficiency. */
  datatype Choice = Choice(selected: int, split: nat, round: nat, emptyCu: int, effi: real)

  /** The inner loop of `select_kernel`: every split of configuration i is compared with the choice so far. */
  method TrySplits(q: Query, cfgs: seq<Config>, i: nat, choice: Choice, ghost before: set<Pair>)
    returns (best: Choice, ghost tried: set<Pair>)
    requires i < |cfgs| && Best(q, cfgs, before, choice.selected, choice.split, choice.round) && Eligible(q, cfgs[i])
    ensures Best(q, cfgs, tried, best.selected, best.split, best.round)
    ensures forall p :: p in tried <==> p in before || (p.index == i && p.split in Splits(q, cfgs[i]))
  {
    var cfg, splits := cfgs[i], Splits(q, cfgs[i]);
    best, tried := choice, before;
    for j := 0 to |splits|
      invariant Best(q, cfgs, tried, best.selected, best.split, best.round)
      invariant forall p :: p in tried <==> p in before || (p.index == i && p.split in splits[..j])
    {
      var here := Pair(i, splits[j]);
      IdleUnits(q, cfg, splits[j]);
      BestNext(q, cfgs, tried, best.selected, best.split, best.round, here);
      var round := Rounds(q, cfg, splits[j]);
      var idle := round * q.numCu - Workgroups(q, cfg, splits[j]);
      var effi := (cfg.tileM * cfg.tileN) as real / (cfg.tileM + cfg.tileN) as real;
      if round < best.round || (round == best.round && (best.emptyCu > idle || effi > best.effi)) {
        best := Choice(i, splits[j], round, idle, effi);
      }
      tried := tried + {here};
    }
  }

  /** `select_kernel`: an eligible pair with the fewest rounds over all eligible pairs, or -1 when there is none.
      Tie-breaking keeps one of the pairs with that many rounds. */
  method SelectKernel(q: Query, cfgs: seq<Config>) returns (selected: int, log2: nat)
    requires InRange(q, cfgs)
    ensures selected == -1 <==> forall i :: 0 <= i < |cfgs| ==> !Eligible(q, cfgs[i])
    ensures selected != -1 ==> selected >= 0 && Candidate(q, cfgs, |cfgs|, Pair(selected, Pow2(log2)))
    ensures selected != -1 ==> forall p :: Candidate(q, cfgs, |cfgs|, p) ==>
      PairRounds(q, cfgs, Pair(selected, Pow2(log2))) <= PairRounds(q, cfgs, p)
    ensures selected != -1 ==> 0 <= selected < |cfgs| && Fits(q, cfgs[selected].tileM, cfgs[selected].tileN, cfgs[selected].splitK,
                                                              cfgs[selected].bpreshuffle) && SplitAllowed(q, cfgs[selected].splitK, log2)
    ensures selected == -1 ==> forall i :: 0 <= i < |cfgs| ==>
      !Fits(q, cfgs[i].tileM, cfgs[i].tileN, cfgs[i].splitK, cfgs[i].bpreshuffle)
  {
    var choice := Choice(-1, 1, 0xffff_ffff, q.numCu, 1.0);
    ghost var tried: set<Pair> := {};
    for i := 0 to |cfgs|
      invariant Best(q, cfgs, tried, choice.selected, choice.split, choice.round)
      invariant forall p :: p in tried <==> Candidate(q, cfgs, i, p)
    {
      if Eligible(q, cfgs[i]) {
        choice, tried := TrySplits(q, cfgs, i, choice, tried);
      }
    }
    selected := choice.selected;
    PowerSplit(q, cfgs, tried, selected, choice.split, choice.round);
    log2 := Log2(choice.split);
    if selected != -1 { AllowedSplit(q, cfgs[selected], log2); }
    if selected == -1 {
      forall i | 0 <= i < |cfgs| ensures !Eligible(q, cfgs[i]) {
        assert !Candidate(q, cfgs, |cfgs|, Pair(i, Splits(q, cfgs[i])[0]));
      }
    }
  }

  /** A kernel serves a request: preshuffled weights where they are asked for and only there, able to split K when a split is
      asked for, and no ragged edge for the tile of 128 by 512. */
  predicate Fits(q: Query, tileM: nat, tileN: nat, splitK: int, bpreshuffle: int) {
    && (bpreshuffle == 0 || bpreshuffle == 1) && (bpreshuffle == 0 <==> q.bpreshuffle == 0)
    && (q.log2KSplit >= 1 ==> splitK >= 1)
    && (tileM == 128 && tileN == 512 ==> q.n % 512 == 0)
    && splitK >= 0
  }

  /** The split asked for, or 2, 4, 8 or 16 when that is left open; 1 if the kernel cannot split. */
  predicate SplitAllowed(q: Query, splitK: int, log2: nat) {
    if splitK == 0 then log2 == 0 else if q.log2KSplit < 0 then 1 <= log2 <= 4 else log2 == q.log2KSplit
  }

  lemma AllowedSplit(q: Query, cfg: Config, log2: nat)
    requires Pow2(log2) in Splits(q, cfg)
    ensures SplitAllowed(q, cfg.splitK, log2)
  {
    assert Pow2(0) == 1 && Pow2(1) == 2 && Pow2(2) == 4 && Pow2(3) == 8 && Pow2(4) == 16 && Pow2(5) == 32;
    if log2 > 4 { Pow2Mono(5, log2); }
    if q.log2KSplit >= 0 && cfg.splitK != 0 { Pow2Injective(log2, q.log2KSplit); }
  }

  lemma {:induction false} Pow2Injective(a: nat, b: nat)
    requires Pow2(a) == Pow2(b)
    ensures a == b
  {
    if a > 0 && b > 0 { Pow2Injective(a - 1, b - 1); }
  }

  /** Rounds of all compute units that cover the workgroups, and no fewer. */
  lemma RoundsLeast(q: Query, cfg: Config, split: nat, r: nat)
    requires q.numCu > 0 && cfg.tileM > 0 && cfg.tileN > 0
    ensures r * q.numCu >= Workgroups(q, cfg, split) <==> r >= Rounds(q, cfg, split)
  {
    IdleUnits(q, cfg, split);
    var rounds := Rounds(q, cfg, split);
    if r < rounds { MulLe(r + 1, rounds, q.numCu); Distribute(r, 1, q.numCu); } else { MulLe(rounds, r, q.numCu); }
  }

  lemma PowerSplit(q: Query, cfgs: seq<Config>, tried: set<Pair>, selected: int, split: nat, round: nat)
    requires Best(q, cfgs, tried, selected, split, round)
    ensures exists e: nat :: split == Pow2(e)
  {
    assert Pow2(0) == 1 && Pow2(1) == 2 && Pow2(2) == 4 && Pow2(3) == 8 && Pow2(4) == 16;
    if selected != -1 {
      var cfg := cfgs[selected];
      if q.log2KSplit >= 0 && cfg.splitK != 0 { assert split == Pow2(q.log2KSplit); }
    }
  }

  /** The shift loop. */
  method Log2(split: nat) returns (log2: nat)
    requires exists e: nat :: split == Pow2(e)
    ensures Pow2(log2) == split
  {
    ghost var e: nat :| split == Pow2(e);
    var v := split / 2;
    log2 := 0;
    while v != 0
      invariant log2 <= e && v == Pow2(e - log2) / 2
      decreases v
    {
      log2 := log2 + 1;
      v := v / 2;
    }
  }

  // ---------------------------------------------------------------- grid

  datatype Launch = Launch(gdx: nat, gdy: nat, gdz: nat, log2KSplit: nat, zeroOut: bool)

  /** `make_launch` exits when K does not divide evenly, and divides by zero when K = 0 is split. */
  datatype Outcome = Launched(d: Launch) | Rejected | DividesByZero

  /** k_per_tg: the share of one of 2^log2 workgroups, rounded up to 256. */
  function KPerTg(k: nat, log2: nat): nat
    requires k % Pow2(log2) == 0
  {
    DivMod(k, Pow2(log2));
    MulLe(0, (k / Pow2(log2) + 255) / 256, 256);
    (k / Pow2(log2) + 255) / 256 * 256
  }

  /** Chunks of `size` cut [0, k): chunk z holds [z * size, (z + 1) * size). */
  predicate InChunk(size: nat, z: nat, x: nat) { z * size <= x < z * size + size }

  /** Every x below k lies in exactly one of `count` chunks, and none of these is empty. */
  ghost predicate Partition(k: nat, size: nat, count: nat) {
    && (forall x: nat :: x < k ==> InChunk(size, x / Divisor(size), x) && x / Divisor(size) < count)
    && (forall x: nat, z: nat :: InChunk(size, z, x) ==> z == x / Divisor(size))
    && (forall z: nat :: z < count ==> FirstOf(z, size) < k)
  }

  function FirstOf(z: nat, size: nat): int { z * size }

  function Divisor(size: nat): nat { if size == 0 then 1 else size }

  lemma ChunksPartition(k: nat, size: nat)
    requires size > 0
    ensures Partition(k, size, CeilDiv(k, size))
  {
    var count := CeilDiv(k, size);
    DivMod(k + size - 1, size);
    forall x: nat | x < k ensures InChunk(size, x / size, x) && x / size < count {
      InsideTile(k, size, x);
    }
    forall x: nat, z: nat | InChunk(size, z, x) ensures z == x / size {
      DivModUnique(x, size, z, x - z * size);
    }
    forall z: nat | z < count ensures FirstOf(z, size) < k {
      MulLe(z + 1, count, size);
      Distribute(z, 1, size);
    }
  }

  /** No more chunks than 2^log2: rounding up only makes chunks larger. */
  lemma FewEnough(k: nat, p: nat, size: nat)
    requires p > 0 && k % p == 0 && size > 0 && size >= k / p
    ensures CeilDiv(k, size) <= p
  {
    DivMod(k, p);
    MulLe(k / p, size, p);
    DivMod(k + size - 1, size);
    if p < CeilDiv(k, size) {
      MulLe(p + 1, CeilDiv(k, size), size);
      Distribute(p, 1, size);
    }
  }

  /** The share is the least multiple of 256 with which 2^log2 workgroups reach K: it overshoots K / 2^log2 by less
      than 256. */
  lemma ShareLeast(k: nat, log2: nat, x: nat)
    requires k % Pow2(log2) == 0
    ensures KPerTg(k, log2) % 256 == 0 && KPerTg(k, log2) * Pow2(log2) >= k
    ensures k / Pow2(log2) <= KPerTg(k, log2) < k / Pow2(log2) + 256
    ensures x % 256 == 0 && x * Pow2(log2) >= k ==> KPerTg(k, log2) <= x
  {
    var p := Pow2(log2);
    var share := k / p;
    DivMod(k, p);
    RoundedLeast(share, x);
    MulLe(share, KPerTg(k, log2), p);
    if x < share { MulLe(x + 1, share, p); Distribute(x, 1, p); }
  }

  lemma RoundedLeast(share: nat, x: nat)
    ensures var r := (share + 255) / 256 * 256; share <= r < share + 256 && r % 256 == 0 && (x % 256 == 0 && share <= x ==> r <= x)
  {
    RoundedShare(share);
    if x % 256 == 0 && share <= x { DivMod(x, 256); }
  }

  /** The grid has as many workgroups as `select_kernel` counts, or fewer when rounding the share up needs fewer. */
  lemma GridSize(cfg: Config, m: nat, n: nat, split: nat, gdz: nat)
    requires cfg.tileM > 0 && cfg.tileN > 0 && gdz <= split
    ensures forall q: Query :: q.m == m && q.n == n ==>
      CeilDiv(n, cfg.tileN) * CeilDiv(m, cfg.tileM) * split == Workgroups(q, cfg, split)
        >= CeilDiv(n, cfg.tileN) * CeilDiv(m, cfg.tileM) * gdz
  {
    MulLe(0, CeilDiv(n, cfg.tileN), CeilDiv(m, cfg.tileM));
    MulLe(gdz, split, CeilDiv(n, cfg.tileN) * CeilDiv(m, cfg.tileM));
  }

  method MakeLaunch(cfg: Config, m: nat, n: nat, k: nat, log2KSplit: nat) returns (o: Outcome)
    requires cfg.tileM > 0 && cfg.tileN > 0
    ensures o == Rejected <==> cfg.splitK == 1 && k % Pow2(log2KSplit) != 0
    ensures o == DividesByZero <==> cfg.splitK == 1 && k == 0
    ensures o.Launched? ==> o.d.gdz <= Pow2(o.d.log2KSplit) && (o.d.zeroOut <==> o.d.log2KSplit > 0)
    ensures o.Launched? && cfg.splitK == 1 ==> o.d.log2KSplit == log2KSplit && KPerTg(k, log2KSplit) % 256 == 0
    ensures o.Launched? && cfg.splitK == 1 ==>
      k / Pow2(log2KSplit) <= KPerTg(k, log2KSplit) < k / Pow2(log2KSplit) + 256 && Partition(k, KPerTg(k, log2KSplit), o.d.gdz)
    ensures o.Launched? && cfg.splitK != 1 ==> o.d.log2KSplit == 0 && o.d.gdz == 1
    ensures o.Launched? ==> Partition(n, cfg.tileN, o.d.gdx) && Partition(m, cfg.tileM, o.d.gdy)
    ensures o.Launched? ==> forall q: Query :: q.m == m && q.n == n ==>
      o.d.gdx * o.d.gdy * Pow2(o.d.log2KSplit) == Workgroups(q, cfg, Pow2(o.d.log2KSplit)) >= o.d.gdx * o.d.gdy * o.d.gdz
  {
    var d := Launch(0, 0, 1, 0, false);
    if cfg.splitK == 1 {
      var kNum := Pow2(log2KSplit);
      if k % kNum != 0 { ZeroDivides(kNum); return Rejected; }
      var kPerTg := KPerTg(k, log2KSplit);
      SharePositive(k, log2KSplit);
      if kPerTg == 0 { return DividesByZero; }
      FewEnough(k, kNum, kPerTg);
      ShareLeast(k, log2KSplit, 0);
      ChunksPartition(k, kPerTg);
      d := d.(log2KSplit := log2KSplit, zeroOut := kNum > 1, gdz := CeilDiv(k, kPerTg));
    }
    ChunksPartition(n, cfg.tileN);
    ChunksPartition(m, cfg.tileM);
    GridSize(cfg, m, n, Pow2(d.log2KSplit), d.gdz);
    return Launched(d.(gdx := CeilDiv(n, cfg.tileN), gdy := CeilDiv(m, cfg.tileM)));
  }

  lemma ZeroDivides(p: nat)
    requires p > 0
    ensures 0 % p == 0
  {
    DivModUnique(0, p, 0, 0);
  }

  lemma SharePositive(k: nat, log2: nat)
    requires k % Pow2(log2) == 0
    ensures KPerTg(k, log2) >= k / Pow2(log2) && KPerTg(k, log2) % 256 == 0 && (KPerTg(k, log2) == 0 <==> k == 0)
    ensures Pow2(log2) > 1 <==> log2 > 0
  {
    DivMod(k, Pow2(log2));
    ShareOf(k, Pow2(log2));
    RoundedShare(k / Pow2(log2));
    if log2 > 0 { assert Pow2(log2) == 2 * Pow2(log2 - 1); }
  }

  lemma ShareOf(k: nat, p: nat)
    requires p > 0 && k % p == 0
    ensures 0 <= k / p && (k / p == 0 <==> k == 0)
  {
    DivMod(k, p);
    if k == 0 { DivModUnique(0, p, 0, 0); }
  }

  lemma RoundedShare(share: nat)
    ensures var r := (share + 255) / 256 * 256; r >= share && r % 256 == 0 && (r == 0 <==> share == 0)
  {
    var q := (share + 255) / 256;
    DivMod(share + 255, 256);
    DivModUnique(q * 256, 256, q, 0);
  }
}
