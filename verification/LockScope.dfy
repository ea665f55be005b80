/** Exactly which output lanes the lock of `simple_workgroup_reduce<false>` protects.

    The kernel's comment promises that the lock makes the load-add-store of every thread safe.  `release`
    exchanges the word before its barrier, so that holds only for the wave of thread 0 (or for a single
    workgroup); every other lane has a run that drops an update. */
module LockScope {
  import Arith
  import opened ReduceSpec
  import opened WorkgroupKernel
  import opened LockReduce

  predicate HasStored(pc: Pc) {
    pc == Signal || pc == AtExit || pc == Done
  }

  /** No thread of lane `l` is between its load and its store. */
  ghost predicate LaneQuiet<T>(c: Config<T>, s: State<T>, l: nat)
    requires Shape(c, s) && l < c.lanes
  {
    forall b :: 0 <= b < c.rows ==> s.pc[b][c.WaveOf(l)] != Store
  }

  /** The output lane holds the rows of the workgroups that have stored it, each once, in some order. */
  ghost predicate LaneSound<T>(c: Config<T>, s: State<T>, l: nat)
    requires Shape(c, s) && l < c.lanes
  {
    exists order :: SoundBy(c, s, l, order)
  }

  ghost predicate SoundBy<T>(c: Config<T>, s: State<T>, l: nat, order: seq<nat>)
    requires Shape(c, s) && l < c.lanes
  {
    && (forall i :: 0 <= i < |order| ==> order[i] < c.rows)
    && (forall i, j :: 0 <= i < j < |order| ==> order[i] != order[j])
    && (forall b :: 0 <= b < c.rows ==> (b in order <==> HasStored(s.pc[b][c.WaveOf(l)])))
    && s.out[l] == OrderFold(c.add, c.zero, c.input, c.rows, c.lanes, order, l)
  }

  lemma ThreadZeroWaveSound<T(!new)>(c: Config<T>, s: State<T>, l: nat)
    requires Reachable(c, s) && Shape(c, s) && l < c.lanes && c.WaveOf(l) == 0
    ensures LaneSound(c, s, l)
  {
    NoLostUpdate(c, s, l);
    assert SoundBy(c, s, l, s.order);
  }

  // ---------------------------------------------------------------- one workgroup

  ghost predicate OneRow<T>(c: Config<T>, s: State<T>, l: nat)
    requires Shape(c, s) && l < c.lanes
  {
    if c.rows == 0 then s.out[l] == c.zero
    else
      var pc := s.pc[0][c.WaveOf(l)];
      && (pc == Store ==> s.reg[0][l] == c.zero)
      && s.out[l] == if HasStored(pc) then c.add(At(c.input, c.rows, c.lanes, 0, l), c.zero) else c.zero
  }

  lemma {:induction false} OneRowRun<T>(c: Config<T>, s: State<T>, l: nat, steps: seq<Step>)
    requires c.rows <= 1 && Shape(c, s) && Legal(c, s, steps) && l < c.lanes && OneRow(c, s, l)
    ensures OneRow(c, After(c, s, steps), l)
    decreases |steps|
  {
    if steps != [] {
      assert OneRow(c, Apply(c, s, steps[0]), l);
      OneRowRun(c, Apply(c, s, steps[0]), l, steps[1..]);
    }
  }

  lemma SingleWorkgroupSound<T(!new)>(c: Config<T>, s: State<T>, l: nat)
    requires Reachable(c, s) && Shape(c, s) && l < c.lanes && c.rows <= 1
    ensures LaneSound(c, s, l)
  {
    var steps :| Reaches(c, steps, s);
    OneRowRun(c, Init(c), l, steps);
    OneRowSound(c, s, l);
  }

  lemma OneRowSound<T>(c: Config<T>, s: State<T>, l: nat)
    requires c.rows <= 1 && Shape(c, s) && l < c.lanes && OneRow(c, s, l)
    ensures LaneSound(c, s, l)
  {
    if c.rows == 1 && HasStored(s.pc[0][c.WaveOf(l)]) {
      assert [0][..0] == [];
      assert 0 in [0];
      assert SoundBy(c, s, l, [0]);
    } else {
      assert SoundBy(c, s, l, []);
    }
  }

  // ---------------------------------------------------------------- the lost update

  lemma Snoc<T>(c: Config<T>, s: State<T>, steps: seq<Step>, step: Step)
    requires Shape(c, s) && Legal(c, s, steps) && Enabled(c, After(c, s, steps), step)
    ensures Legal(c, s, steps + [step])
    ensures After(c, s, steps + [step]) == Apply(c, After(c, s, steps), step)
    decreases |steps|
  {
    if steps == [] {
      assert (steps + [step])[1..] == [];
    } else {
      assert (steps + [step])[1..] == steps[1..] + [step];
      Snoc(c, Apply(c, s, steps[0]), steps[1..], step);
    }
  }

  lemma Extend<T(!new)>(c: Config<T>, s: State<T>, step: Step) returns (s': State<T>)
    requires Reachable(c, s) && Shape(c, s) && Enabled(c, s, step)
    ensures s' == Apply(c, s, step) && Reachable(c, s')
  {
    var steps :| Reaches(c, steps, s);
    Snoc(c, Init(c), steps, step);
    s' := Apply(c, s, step);
    assert Reaches(c, steps + [step], s');
  }

  /** Thread 0 of block `b` takes the free lock and the workgroup passes its first barrier. */
  lemma EnterAlone<T(!new)>(c: Config<T>, s: State<T>, b: nat) returns (s': State<T>)
    requires Reachable(c, s) && Shape(c, s) && b < c.rows && s.word == 0
    requires forall w :: 0 <= w < c.Waves() ==> s.pc[b][w] == StartPc(w)
    ensures Reachable(c, s') && Shape(c, s')
    ensures s' == s.(word := 1, pc := s.pc[b := s'.pc[b]])
    ensures forall w :: 0 <= w < c.Waves() ==> s'.pc[b][w] == Load
  {
    var s1 := Extend(c, s, TryAcquire(b));
    assert forall w :: 0 <= w < c.Waves() ==> s1.pc[b][w] == AtEntry;
    assert AtBarrier(s1.pc[b][0]);
    s' := Extend(c, s1, Barrier(b));
    assert s'.pc == s.pc[b := s'.pc[b]];
  }

  /** Thread 0's wave of block `b` adds its row and frees the lock while the other waves stand still. */
  lemma LeaveEarly<T(!new)>(c: Config<T>, s: State<T>, b: nat, l: nat) returns (s': State<T>)
    requires Reachable(c, s) && Shape(c, s) && b < c.rows && s.word == 1
    requires s.pc[b][0] == Load && l < c.lanes && c.WaveOf(l) != 0
    ensures Reachable(c, s') && Shape(c, s') && s'.word == 0
    ensures s'.pc == s.pc[b := s.pc[b][0 := AtExit]]
    ensures s'.out[l] == s.out[l]
  {
    var s1 := Extend(c, s, LoadOut(b, 0));
    var s2 := Extend(c, s1, StoreOut(b, 0));
    s' := Extend(c, s2, TryRelease(b));
    assert s'.pc[b] == s.pc[b][0 := AtExit];
    assert s'.pc == s.pc[b := s.pc[b][0 := AtExit]];
  }

  /** Two workgroups both load lane `l` before either stores it. */
  lemma Overtake<T(!new)>(c: Config<T>, s: State<T>, l: nat) returns (s': State<T>)
    requires Reachable(c, s) && Shape(c, s) && c.rows >= 2 && l < c.lanes
    requires s.pc[0][c.WaveOf(l)] == Load && s.pc[1][c.WaveOf(l)] == Load
    ensures Reachable(c, s') && Shape(c, s')
    ensures s'.out[l] == c.add(At(c.input, c.rows, c.lanes, 1, l), s.out[l])
    ensures HasStored(s'.pc[0][c.WaveOf(l)]) && HasStored(s'.pc[1][c.WaveOf(l)])
    ensures forall b :: 2 <= b < c.rows ==> s'.pc[b] == s.pc[b]
  {
    var w := c.WaveOf(l);
    var s1 := Extend(c, s, LoadOut(0, w));
    var s2 := Extend(c, s1, LoadOut(1, w));
    var s3 := Extend(c, s2, StoreOut(0, w));
    s' := Extend(c, s3, StoreOut(1, w));
    assert s2.reg[1][l] == s.out[l];
  }

  /** The early release lets a second workgroup in while the first has not touched lane `l` yet. */
  lemma BothInside<T(!new)>(c: Config<T>, l: nat) returns (s: State<T>)
    requires c.Valid() && c.rows >= 2 && l < c.lanes && c.WaveOf(l) != 0
    ensures Reachable(c, s) && Shape(c, s) && s.out[l] == c.zero
    ensures s.pc[0][c.WaveOf(l)] == Load && s.pc[1][c.WaveOf(l)] == Load
    ensures forall b :: 2 <= b < c.rows ==> s.pc[b][c.WaveOf(l)] == AtEntry
  {
    assert Reaches(c, [], Init(c));
    var s1 := EnterAlone(c, Init(c), 0);
    var s2 := LeaveEarly(c, s1, 0, l);
    assert s2.pc[1] == Init(c).pc[1];
    s := EnterAlone(c, s2, 1);
    assert s.pc[0] == s2.pc[0];
    forall b | 2 <= b < c.rows ensures s.pc[b][c.WaveOf(l)] == AtEntry {
      assert s.pc[b] == s2.pc[b] == s1.pc[b] == Init(c).pc[b];
    }
  }

  /** For every launch with two workgroups and every lane outside thread 0's wave, some run ends up with
      both updates stored and the first one gone. */
  lemma LostUpdate<T(!new)>(c: Config<T>, l: nat) returns (s: State<T>)
    requires c.Valid() && c.rows >= 2 && l < c.lanes && c.WaveOf(l) != 0
    ensures Reachable(c, s) && Shape(c, s) && LaneQuiet(c, s, l)
    ensures forall b :: 0 <= b < c.rows ==> (HasStored(s.pc[b][c.WaveOf(l)]) <==> b < 2)
    ensures s.out[l] == c.add(At(c.input, c.rows, c.lanes, 1, l), c.zero)
  {
    var s0 := BothInside(c, l);
    s := Overtake(c, s0, l);
    var w := c.WaveOf(l);
    forall b | 0 <= b < c.rows
      ensures s.pc[b][w] != Store && (HasStored(s.pc[b][w]) <==> b < 2)
    {
      if b >= 2 {
        assert s.pc[b][w] == s0.pc[b][w] == AtEntry;
      } else {
        assert b == 0 || b == 1;
      }
    }
  }

  // ---------------------------------------------------------------- the exact condition

  const PLUS: (int, int) -> int := (x, y) => x + y

  ghost function IntConfig(rows: nat, lanes: nat, waveSize: nat, input: seq<int>): Config<int> {
    Config(rows, lanes, waveSize, PLUS, 0, input)
  }

  ghost predicate AlwaysSound(rows: nat, lanes: nat, waveSize: nat, l: nat)
    requires l < lanes
  {
    forall input, s :: Observed(rows, lanes, waveSize, l, input, s)
      ==> LaneSound(IntConfig(rows, lanes, waveSize, input), s, l)
  }

  ghost predicate Observed(rows: nat, lanes: nat, waveSize: nat, l: nat, input: seq<int>, s: State<int>)
    requires l < lanes
  {
    var c := IntConfig(rows, lanes, waveSize, input);
    Reachable(c, s) && Shape(c, s) && LaneQuiet(c, s, l)
  }

  /** Two distinct rows of ones add up to 2 in any order. */
  lemma TwoOnes(c: Config<int>, order: seq<nat>, l: nat)
    requires c.Valid() && c.add == PLUS && c.zero == 0 && l < c.lanes && c.rows >= 2
    requires forall i :: 0 <= i < |c.input| ==> c.input[i] == 1
    requires forall i :: 0 <= i < |order| ==> order[i] < c.rows
    ensures OrderFold(c.add, c.zero, c.input, c.rows, c.lanes, order, l) == |order|
  {
    if order != [] {
      var last := |order| - 1;
      Arith.RowIndex(order[last], l, c.rows, c.lanes);
      TwoOnes(c, order[..last], l);
    }
  }

  lemma Protected<T(!new)>(c: Config<T>, s: State<T>, l: nat)
    requires Reachable(c, s) && Shape(c, s) && l < c.lanes && (c.WaveOf(l) == 0 || c.rows <= 1)
    ensures LaneSound(c, s, l)
  {
    if c.rows <= 1 {
      SingleWorkgroupSound(c, s, l);
    } else {
      ThreadZeroWaveSound(c, s, l);
    }
  }

  /** A lane that holds one row after two workgroups stored it cannot be explained by any order. */
  lemma LossIsUnsound(c: Config<int>, s: State<int>, l: nat)
    requires Shape(c, s) && c.add == PLUS && c.zero == 0 && l < c.lanes && c.rows >= 2
    requires forall i :: 0 <= i < |c.input| ==> c.input[i] == 1
    requires HasStored(s.pc[0][c.WaveOf(l)]) && HasStored(s.pc[1][c.WaveOf(l)])
    requires s.out[l] == 1
    ensures !LaneSound(c, s, l)
  {
    if LaneSound(c, s, l) {
      var order :| SoundBy(c, s, l, order);
      TwoOnes(c, order, l);
      assert false;
    }
  }

  lemma Unprotected(rows: nat, lanes: nat, waveSize: nat, l: nat)
    requires waveSize > 0 && l < lanes && l / waveSize != 0 && rows >= 2
    ensures !AlwaysSound(rows, lanes, waveSize, l)
  {
    var input := seq(rows * lanes, _ => 1);
    var c := IntConfig(rows, lanes, waveSize, input);
    var s := LostUpdate(c, l);
    Arith.RowIndex(1, l, rows, lanes);
    LossIsUnsound(c, s, l);
    assert Observed(rows, lanes, waveSize, l, input, s);
  }

  /** A lane is protected in all runs exactly when it belongs to thread 0's wave or there is one workgroup. */
  lemma LockProtectsExactly(rows: nat, lanes: nat, waveSize: nat, l: nat)
    requires waveSize > 0 && l < lanes
    ensures AlwaysSound(rows, lanes, waveSize, l) <==> l / waveSize == 0 || rows <= 1
  {
    if l / waveSize == 0 || rows <= 1 {
      forall input, s | Observed(rows, lanes, waveSize, l, input, s)
        ensures LaneSound(IntConfig(rows, lanes, waveSize, input), s, l)
      {
        Protected(IntConfig(rows, lanes, waveSize, input), s, l);
      }
    } else {
      Unprotected(rows, lanes, waveSize, l);
    }
  }
}
