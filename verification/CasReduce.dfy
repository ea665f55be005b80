/** The compare-and-swap retry loop `atomicAddNoRet`, run by any number of threads on any number of
    shared cells, in any interleaving.

    A thread reads its cell, then repeats: add its value to what it read, and exchange if the cell still
    holds what it read; a failed exchange returns the cell's present value.  Comparison is by value, so a
    cell may change and change back in between. */
module CasReduce {
  import opened Folds

  /** Thread `t` (below `threads`) adds `value(t)` to cell `target(t)`; all cells start at `zero`. */
  datatype Problem<!V> = Problem(threads: nat, cells: nat, zero: V, add: (V, V) -> V,
                                 target: nat -> nat, value: nat -> V) {
    ghost predicate Valid() {
      forall t :: 0 <= t < threads ==> target(t) < cells
    }

    /** The cell after the threads of `log` have added their values in that order. */
    function Total(log: seq<nat>): V {
      FoldBy(AddThread(), zero, log)
    }

    function AddThread(): (V, nat) -> V {
      (v, t: nat) => add(v, value(t))
    }
  }

  datatype Thread<V> = Start | Looping(cur: V) | Done

  /** `log`, `fails` and `seen` are history: per cell the threads that succeeded, in order; per thread its
      failed exchanges, and how many successes its cell had seen when the thread last read it. */
  datatype State<!V> = State(cell: seq<V>, thread: seq<Thread<V>>, log: seq<seq<nat>>, fails: seq<nat>, seen: seq<nat>)

  /** `Read(t, age)` is the plain load before the loop: not being atomic, it may return the value the cell
      had after its first `age` successes. */
  datatype Step = Read(t: nat, age: nat) | Exchange(t: nat)

  function Init<V>(p: Problem<V>): State<V> {
    State(seq(p.cells, _ => p.zero), seq(p.threads, _ => Start), seq(p.cells, _ => []),
          seq(p.threads, _ => 0), seq(p.threads, _ => 0))
  }

  ghost predicate Shape<V>(p: Problem<V>, s: State<V>) {
    && p.Valid()
    && |s.cell| == |s.log| == p.cells
    && |s.thread| == |s.fails| == |s.seen| == p.threads
  }

  predicate Enabled<V>(p: Problem<V>, s: State<V>, step: Step)
    requires |s.thread| == p.threads && |s.log| == p.cells
  {
    && step.t < p.threads && p.target(step.t) < p.cells
    && match step
       case Read(t, age) => s.thread[t].Start? && age <= |s.log[p.target(t)]|
       case Exchange(t) => s.thread[t].Looping?
  }

  /** The exchange finds the value it compares with. */
  ghost predicate Succeeds<V>(p: Problem<V>, s: State<V>, t: nat)
    requires Shape(p, s) && t < p.threads && s.thread[t].Looping?
  {
    s.cell[p.target(t)] == s.thread[t].cur
  }

  ghost function Apply<V>(p: Problem<V>, s: State<V>, step: Step): (s': State<V>)
    requires Shape(p, s) && Enabled(p, s, step)
    ensures Shape(p, s')
  {
    var t := step.t;
    var k := p.target(t);
    match step
    case Read(_, age) =>
      s.(thread := s.thread[t := Looping(p.Total(s.log[k][..age]))], seen := s.seen[t := age])
    case Exchange(_) =>
      var cur := s.thread[t].cur;
      if Succeeds(p, s, t) then
        s.(cell := s.cell[k := p.add(cur, p.value(t))], thread := s.thread[t := Done],
           log := s.log[k := s.log[k] + [t]])
      else
        s.(thread := s.thread[t := Looping(s.cell[k])],
           fails := s.fails[t := s.fails[t] + 1], seen := s.seen[t := |s.log[k]|])
  }

  // ---------------------------------------------------------------- invariant

  ghost predicate CellOk<V>(p: Problem<V>, s: State<V>, k: nat)
    requires Shape(p, s) && k < p.cells
  {
    && s.cell[k] == p.Total(s.log[k])
    && Distinct(s.log[k])
    && forall i :: 0 <= i < |s.log[k]| ==>
         && s.log[k][i] < p.threads && p.target(s.log[k][i]) == k
         && s.thread[s.log[k][i]] == Done
         && s.fails[s.log[k][i]] <= i
  }

  ghost predicate ThreadOk<V>(p: Problem<V>, s: State<V>, t: nat)
    requires Shape(p, s) && t < p.threads
  {
    var log := s.log[p.target(t)];
    match s.thread[t]
    case Start => s.fails[t] == 0
    case Looping(cur) => s.fails[t] <= s.seen[t] <= |log| && cur == p.Total(log[..s.seen[t]])
    case Done => t in log
  }

  ghost predicate Inv<V>(p: Problem<V>, s: State<V>) {
    && Shape(p, s)
    && (forall k :: 0 <= k < p.cells ==> CellOk(p, s, k))
    && (forall t :: 0 <= t < p.threads ==> ThreadOk(p, s, t))
  }

  lemma InitInv<V>(p: Problem<V>)
    requires p.Valid()
    ensures Inv(p, Init(p))
  {
  }

  lemma WholePrefix<A>(xs: seq<A>)
    ensures xs[..|xs|] == xs
  {
  }

  lemma ReadInv<V>(p: Problem<V>, s: State<V>, t: nat, age: nat)
    requires Inv(p, s) && Enabled(p, s, Read(t, age))
    ensures Inv(p, Apply(p, s, Read(t, age)))
  {
    var s' := Apply(p, s, Read(t, age));
    forall k | 0 <= k < p.cells ensures CellOk(p, s', k) {
      assert CellOk(p, s, k);
    }
    forall u | 0 <= u < p.threads ensures ThreadOk(p, s', u) {
      assert ThreadOk(p, s, u);
    }
  }

  lemma FailInv<V>(p: Problem<V>, s: State<V>, t: nat)
    requires Inv(p, s) && Enabled(p, s, Exchange(t)) && !Succeeds(p, s, t)
    ensures Inv(p, Apply(p, s, Exchange(t)))
  {
    var k := p.target(t);
    var s' := Apply(p, s, Exchange(t));
    assert CellOk(p, s, k) && ThreadOk(p, s, t);
    WholePrefix(s.log[k]);
    assert s.seen[t] < |s.log[k]|;
    forall j | 0 <= j < p.cells ensures CellOk(p, s', j) {
      assert CellOk(p, s, j);
    }
    forall u | 0 <= u < p.threads ensures ThreadOk(p, s', u) {
      assert ThreadOk(p, s, u);
    }
  }

  lemma SuccessInv<V>(p: Problem<V>, s: State<V>, t: nat)
    requires Inv(p, s) && Enabled(p, s, Exchange(t)) && Succeeds(p, s, t)
    ensures Inv(p, Apply(p, s, Exchange(t)))
  {
    var k := p.target(t);
    var s' := Apply(p, s, Exchange(t));
    assert ThreadOk(p, s, t);
    forall j | 0 <= j < p.cells ensures CellOk(p, s', j) {
      assert CellOk(p, s, j);
      if j == k {
        assert s'.log[k][..|s.log[k]|] == s.log[k];
      }
    }
    forall u | 0 <= u < p.threads ensures ThreadOk(p, s', u) {
      assert ThreadOk(p, s, u);
      if u == t {
        assert s'.log[k][|s.log[k]|] == t;
      } else if s.thread[u].Looping? && p.target(u) == k {
        assert s'.log[k][..s.seen[u]] == s.log[k][..s.seen[u]];
      }
    }
  }

  lemma StepInv<V>(p: Problem<V>, s: State<V>, step: Step)
    requires Inv(p, s) && Enabled(p, s, step)
    ensures Inv(p, Apply(p, s, step))
  {
    match step
    case Read(t, age) => ReadInv(p, s, t, age);
    case Exchange(t) => if Succeeds(p, s, t) { SuccessInv(p, s, t); } else { FailInv(p, s, t); }
  }

  // ---------------------------------------------------------------- runs

  ghost predicate Legal<V>(p: Problem<V>, s: State<V>, steps: seq<Step>)
    requires Shape(p, s)
    decreases |steps|
  {
    steps == [] || (Enabled(p, s, steps[0]) && Legal(p, Apply(p, s, steps[0]), steps[1..]))
  }

  ghost function After<V>(p: Problem<V>, s: State<V>, steps: seq<Step>): (s': State<V>)
    requires Shape(p, s) && Legal(p, s, steps)
    ensures Shape(p, s')
    decreases |steps|
  {
    if steps == [] then s else After(p, Apply(p, s, steps[0]), steps[1..])
  }

  lemma {:induction false} RunInv<V>(p: Problem<V>, s: State<V>, steps: seq<Step>)
    requires Inv(p, s) && Legal(p, s, steps)
    ensures Inv(p, After(p, s, steps))
    decreases |steps|
  {
    if steps != [] {
      StepInv(p, s, steps[0]);
      RunInv(p, Apply(p, s, steps[0]), steps[1..]);
    }
  }

  // ---------------------------------------------------------------- linearisation

  /** In every run each cell is the fold of the threads that have finished on it, in the order of their
      successful exchanges, and each finished thread occurs there exactly once. */
  lemma Linearised<V>(p: Problem<V>, steps: seq<Step>, k: nat)
    requires p.Valid() && Shape(p, Init(p)) && Legal(p, Init(p), steps) && k < p.cells
    ensures var s := After(p, Init(p), steps);
      && s.cell[k] == p.Total(s.log[k])
      && Distinct(s.log[k])
      && forall t: nat :: t in s.log[k] <==> t < p.threads && p.target(t) == k && s.thread[t] == Done
  {
    InitInv(p);
    RunInv(p, Init(p), steps);
    var s := After(p, Init(p), steps);
    assert CellOk(p, s, k);
    forall t: nat | t < p.threads && p.target(t) == k && s.thread[t] == Done ensures t in s.log[k] {
      assert ThreadOk(p, s, t);
    }
  }

  /** The k-th thread to succeed on a cell has failed at most k-1 times, and a thread still trying has
      failed no more often than others have succeeded. */
  lemma RetryBound<V>(p: Problem<V>, steps: seq<Step>, k: nat)
    requires p.Valid() && Shape(p, Init(p)) && Legal(p, Init(p), steps) && k < p.cells
    ensures var s := After(p, Init(p), steps);
      && (forall i :: 0 <= i < |s.log[k]| ==> s.log[k][i] < p.threads && s.fails[s.log[k][i]] <= i)
      && (forall t :: 0 <= t < p.threads && p.target(t) == k && s.thread[t] != Done ==> s.fails[t] <= |s.log[k]|)
  {
    InitInv(p);
    RunInv(p, Init(p), steps);
    var s := After(p, Init(p), steps);
    assert CellOk(p, s, k);
    forall t | 0 <= t < p.threads && p.target(t) == k && s.thread[t] != Done ensures s.fails[t] <= |s.log[k]| {
      assert ThreadOk(p, s, t);
    }
  }
}
