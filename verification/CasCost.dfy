/** How much retrying the compare-and-swap loop can cost: over all interleavings, `n` contributors to a
    cell cause at most n(n-1)/2 failed exchanges on it. */
module CasCost {
  import opened Arith
  import opened Folds
  import opened CasReduce

  /** The sum of f(0), ..., f(n-1). */
  function Sum(f: nat -> int, n: nat): int {
    if n == 0 then 0 else Sum(f, n - 1) + f(n - 1)
  }

  lemma {:induction false} SumLe(f: nat -> int, g: nat -> int, n: nat)
    requires forall t :: 0 <= t < n ==> f(t) <= g(t)
    ensures Sum(f, n) <= Sum(g, n)
  {
    if n > 0 { SumLe(f, g, n - 1); }
  }

  lemma {:induction false} SumPlus(f: nat -> int, g: nat -> int, h: nat -> int, n: nat)
    requires forall t :: 0 <= t < n ==> h(t) == f(t) + g(t)
    ensures Sum(h, n) == Sum(f, n) + Sum(g, n)
  {
    if n > 0 { SumPlus(f, g, h, n - 1); }
  }

  /** Two summands that agree except at `u`. */
  lemma {:induction false} SumChange(f: nat -> int, g: nat -> int, n: nat, u: nat)
    requires forall t :: 0 <= t < n && t != u ==> f(t) == g(t)
    ensures Sum(g, n) == Sum(f, n) + if u < n then g(u) - f(u) else 0
  {
    if n > 0 { SumChange(f, g, n - 1, u); }
  }

  /** The number of threads that add to cell `k`. */
  ghost function Contributors<V>(p: Problem<V>, k: nat): int {
    Sum((t: nat) => if p.target(t) == k then 1 else 0, p.threads)
  }

  /** Failed exchanges on cell `k` during a run. */
  ghost function FailedExchanges<V>(p: Problem<V>, s: State<V>, steps: seq<Step>, k: nat): nat
    requires Shape(p, s) && Legal(p, s, steps)
    decreases |steps|
  {
    if steps == [] then 0
    else
      var step := steps[0];
      (if step.Exchange? && p.target(step.t) == k && !Succeeds(p, s, step.t) then 1 else 0)
      + FailedExchanges(p, Apply(p, s, step), steps[1..], k)
  }

  ghost function FailsOf<V>(p: Problem<V>, fails: seq<nat>, k: nat): nat -> int {
    (t: nat) => if p.target(t) == k && t < |fails| then fails[t] else 0
  }

  lemma {:induction false} FailuresCounted<V>(p: Problem<V>, s: State<V>, steps: seq<Step>, k: nat)
    requires Shape(p, s) && Legal(p, s, steps)
    ensures Sum(FailsOf(p, After(p, s, steps).fails, k), p.threads)
         == Sum(FailsOf(p, s.fails, k), p.threads) + FailedExchanges(p, s, steps, k)
    decreases |steps|
  {
    if steps != [] {
      var s' := Apply(p, s, steps[0]);
      SumChange(FailsOf(p, s.fails, k), FailsOf(p, s'.fails, k), p.threads, steps[0].t);
      FailuresCounted(p, s', steps[1..], k);
    }
  }

  /** Position of `t` in the list, or its length when absent. */
  ghost function Rank(log: seq<nat>, t: nat): nat {
    if log == [] then 0
    else Rank(log[..|log| - 1], t) + if t in log then 0 else 1
  }

  lemma {:induction false} RankIndex(log: seq<nat>, i: nat)
    requires Distinct(log) && i < |log|
    ensures Rank(log, log[i]) == i
  {
    var last := |log| - 1;
    if i < last {
      RankIndex(log[..last], i);
    } else {
      RankAbsent(log[..last], log[i]);
    }
  }

  lemma {:induction false} RankAbsent(log: seq<nat>, t: nat)
    requires t !in log
    ensures Rank(log, t) == |log|
  {
    if log != [] { RankAbsent(log[..|log| - 1], t); }
  }

  ghost function Absent<V>(p: Problem<V>, log: seq<nat>, k: nat): nat -> int {
    (t: nat) => if p.target(t) == k && t !in log then 1 else 0
  }

  ghost function RankOn<V>(p: Problem<V>, log: seq<nat>, k: nat): nat -> int {
    (t: nat) => if p.target(t) == k then Rank(log, t) else 0
  }

  ghost predicate LogOf<V>(p: Problem<V>, log: seq<nat>, k: nat) {
    Distinct(log) && forall i :: 0 <= i < |log| ==> log[i] < p.threads && p.target(log[i]) == k
  }

  lemma {:induction false} AbsentCount<V>(p: Problem<V>, log: seq<nat>, k: nat)
    requires LogOf(p, log, k)
    ensures Sum(Absent(p, log, k), p.threads) == Contributors(p, k) - |log|
  {
    if log == [] {
      SumLe(Absent(p, log, k), (t: nat) => if p.target(t) == k then 1 else 0, p.threads);
      SumLe((t: nat) => if p.target(t) == k then 1 else 0, Absent(p, log, k), p.threads);
    } else {
      var last := |log| - 1;
      AbsentCount(p, log[..last], k);
      assert log == log[..last] + [log[last]];
      SumChange(Absent(p, log[..last], k), Absent(p, log, k), p.threads, log[last]);
    }
  }

  lemma RankStep<V>(p: Problem<V>, log: seq<nat>, k: nat)
    requires LogOf(p, log, k) && log != []
    ensures Sum(RankOn(p, log, k), p.threads)
         == Sum(RankOn(p, log[..|log| - 1], k), p.threads) + Contributors(p, k) - |log|
  {
    var before := log[..|log| - 1];
    forall t | 0 <= t < p.threads
      ensures RankOn(p, log, k)(t) == RankOn(p, before, k)(t) + Absent(p, log, k)(t)
    {
      assert Rank(log, t) == Rank(before, t) + if t in log then 0 else 1;
    }
    SumPlus(RankOn(p, before, k), Absent(p, log, k), RankOn(p, log, k), p.threads);
    AbsentCount(p, log, k);
  }

  /** 0 + 1 + ... for n contributors of which m are ranked, doubled. */
  ghost function Ranked(n: int, m: nat): int {
    if m == 0 then 0 else Ranked(n, m - 1) + 2 * (n - m)
  }

  lemma {:induction false} RankTotal<V>(p: Problem<V>, log: seq<nat>, k: nat)
    requires LogOf(p, log, k)
    ensures 2 * Sum(RankOn(p, log, k), p.threads) == Ranked(Contributors(p, k), |log|)
  {
    if log == [] {
      forall t: nat | t < p.threads ensures RankOn(p, log, k)(t) == 0 {
        assert Rank(log, t) == 0;
      }
      SumZero(RankOn(p, log, k), p.threads);
    } else {
      RankTotal(p, log[..|log| - 1], k);
      RankStep(p, log, k);
    }
  }

  lemma {:induction false} RankedBound(n: int, m: nat)
    requires m <= n
    ensures Ranked(n, m) == n * (n - 1) - (n - m) * (n - m - 1) <= n * (n - 1)
  {
    if m > 0 {
      RankedBound(n, m - 1);
      var d := n - m;
      assert (d + 1) * (d + 1 - 1) == d * (d - 1) + 2 * d;
    }
    if n - m > 0 { MulLe(0, n - m - 1, n - m); }
  }

  lemma FinishedLog<V>(p: Problem<V>, steps: seq<Step>, k: nat)
    requires p.Valid() && Shape(p, Init(p)) && Legal(p, Init(p), steps) && k < p.cells
    ensures LogOf(p, After(p, Init(p), steps).log[k], k)
  {
    Linearised(p, steps, k);
    var log := After(p, Init(p), steps).log[k];
    forall i | 0 <= i < |log| ensures log[i] < p.threads && p.target(log[i]) == k {
      assert log[i] in log;
    }
  }

  lemma FailsBelowRank<V>(p: Problem<V>, steps: seq<Step>, k: nat, t: nat)
    requires p.Valid() && Shape(p, Init(p)) && Legal(p, Init(p), steps) && k < p.cells
    requires t < p.threads && p.target(t) == k
    ensures var s := After(p, Init(p), steps); s.fails[t] <= Rank(s.log[k], t)
  {
    Linearised(p, steps, k);
    RetryBound(p, steps, k);
    var log := After(p, Init(p), steps).log[k];
    if t in log {
      var i :| 0 <= i < |log| && log[i] == t;
      RankIndex(log, i);
    } else {
      RankAbsent(log, t);
    }
  }

  lemma {:induction false} SumZero(f: nat -> int, n: nat)
    requires forall t :: 0 <= t < n ==> f(t) == 0
    ensures Sum(f, n) == 0
  {
    if n > 0 { SumZero(f, n - 1); }
  }

  lemma LogFits<V>(p: Problem<V>, log: seq<nat>, k: nat)
    requires LogOf(p, log, k)
    ensures |log| <= Contributors(p, k)
  {
    AbsentCount(p, log, k);
    SumZero((t: nat) => 0, p.threads);
    SumLe((t: nat) => 0, Absent(p, log, k), p.threads);
  }

  /** At most n(n-1)/2 exchanges on a cell fail, in any run of its n contributors. */
  lemma QuadraticRetries<V>(p: Problem<V>, steps: seq<Step>, k: nat)
    requires p.Valid() && Shape(p, Init(p)) && Legal(p, Init(p), steps) && k < p.cells
    ensures 2 * FailedExchanges(p, Init(p), steps, k) <= Contributors(p, k) * (Contributors(p, k) - 1)
  {
    var s := After(p, Init(p), steps);
    FailuresCounted(p, Init(p), steps, k);
    SumZero(FailsOf(p, Init(p).fails, k), p.threads);
    forall t | 0 <= t < p.threads ensures FailsOf(p, s.fails, k)(t) <= RankOn(p, s.log[k], k)(t) {
      if p.target(t) == k {
        FailsBelowRank(p, steps, k, t);
      }
    }
    SumLe(FailsOf(p, s.fails, k), RankOn(p, s.log[k], k), p.threads);
    FinishedLog(p, steps, k);
    RankLimit(p, s.log[k], k);
  }

  lemma RankLimit<V>(p: Problem<V>, log: seq<nat>, k: nat)
    requires LogOf(p, log, k)
    ensures 2 * Sum(RankOn(p, log, k), p.threads) <= Contributors(p, k) * (Contributors(p, k) - 1)
  {
    RankTotal(p, log, k);
    LogFits(p, log, k);
    RankedBound(Contributors(p, k), |log|);
  }
}
