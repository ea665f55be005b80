/** Which inputs reach which output: the thread-to-cell index maps of the compare-and-swap kernels against
    the loops of their host references. */
module DeviceGrouping {
  import opened Arith
  import opened Folds
  import opened CasReduce

  // ---------------------------------------------------------------- from grouping to results

  /** `order` lists exactly the threads that add to cell `k`, each once. */
  ghost predicate Groups(threads: nat, target: nat -> nat, k: nat, order: seq<nat>) {
    && Distinct(order)
    && forall t: nat :: t in order <==> t < threads && target(t) == k
  }

  ghost predicate AddSwaps<V(!new)>(add: (V, V) -> V) {
    forall v, x, y :: add(add(v, x), y) == add(add(v, y), x)
  }

  /** When every thread has finished, a cell holds what a sequential loop over its group computes,
      whatever the interleaving was. */
  lemma DeviceIsHost<V(!new)>(p: Problem<V>, steps: seq<Step>, k: nat, order: seq<nat>)
    requires p.Valid() && Shape(p, Init(p)) && Legal(p, Init(p), steps) && k < p.cells
    requires forall t :: 0 <= t < p.threads ==> After(p, Init(p), steps).thread[t] == Done
    requires AddSwaps(p.add) && Groups(p.threads, p.target, k, order)
    ensures After(p, Init(p), steps).cell[k] == p.Total(order)
  {
    var s := After(p, Init(p), steps);
    Linearised(p, steps, k);
    SameMembers(s.log[k], order);
    FoldPermuted(p.AddThread(), p.zero, s.log[k], order);
  }

  // ---------------------------------------------------------------- cmpswap_atomic

  /** `p_out += threadIdx.x % REDUCE_SIZE` for the thread that reads input `t`. */
  function ReductionTarget(blockSize: nat, reduceSize: nat, t: nat): nat
    requires blockSize > 0 && reduceSize > 0
  {
    (t % blockSize) % reduceSize
  }

  /** `p_in[j * REDUCE_SIZE + i]` for j = 0, ..., count-1. */
  function ReductionOrder(reduceSize: nat, i: nat, count: nat): (r: seq<nat>)
    ensures |r| == count && forall j :: 0 <= j < count ==> r[j] == j * reduceSize + i
  {
    seq(count, (j: nat) => j * reduceSize + i)
  }

  lemma ModMod(t: nat, a: nat, b: nat)
    requires b > 0 && a > 0
    ensures (a * b) > 0 && (t % (a * b)) % b == t % b
  {
    MulLe(1, a, b);
    var d := a * b;
    var q, r := t / d, t % d;
    DivMod(t, d);
    DivMod(r, b);
    Associate(q, a, b);
    Distribute(q * a, r / b, b);
    DivModUnique(t, b, q * a + r / b, r % b);
  }

  /** The launch `numBlocks` x `blockSize` sends to output `i` the inputs the host loop reads for it. */
  lemma ReductionGroups(perBlock: nat, reduceSize: nat, numBlocks: nat, i: nat)
    requires perBlock > 0 && reduceSize > 0 && i < reduceSize
    ensures perBlock * reduceSize > 0
    ensures Groups(numBlocks * (perBlock * reduceSize), (t: nat) => ReductionTarget(perBlock * reduceSize, reduceSize, t),
                   i, ReductionOrder(reduceSize, i, perBlock * numBlocks))
  {
    MulLe(1, perBlock, reduceSize);
    var count := perBlock * numBlocks;
    var order := ReductionOrder(reduceSize, i, count);
    Associate(numBlocks, perBlock, reduceSize);
    forall j, k | 0 <= j < k < count ensures order[j] != order[k] {
      MulLt(j, k, reduceSize);
    }
    forall t: nat ensures t in order <==> t < count * reduceSize && ReductionTarget(perBlock * reduceSize, reduceSize, t) == i {
      ModMod(t, perBlock, reduceSize);
      DivMod(t, reduceSize);
      if t in order {
        var j :| 0 <= j < count && order[j] == t;
        RowIndex(j, i, count, reduceSize);
        DivModUnique(t, reduceSize, j, i);
      }
      if t < count * reduceSize && t % reduceSize == i {
        DivLt(t, reduceSize, count);
        assert order[t / reduceSize] == t;
      }
    }
  }

  // ---------------------------------------------------------------- cmpswap_atomic_bench

  datatype Mapping = Contiguous | Interleaved

  /** The output index of the thread that reads input `t`. */
  function BenchTarget(m: Mapping, blockSize: nat, inpMul: nat, outputs: nat, t: nat): nat
    requires blockSize > 0 && inpMul > 0 && outputs > 0
  {
    match m
    case Contiguous =>
      DivMod(t, blockSize);
      DivMod(t / blockSize, inpMul);
      MulLe(0, (t / blockSize) / inpMul, blockSize);
      ((t / blockSize) / inpMul) * blockSize + t % blockSize
    case Interleaved => t % outputs
  }

  /** `get_input_idx(i, j)` of the host reference. */
  function BenchInput(m: Mapping, blockSize: nat, inpMul: nat, outputs: nat, i: nat, j: nat): nat
    requires blockSize > 0
  {
    match m
    case Contiguous => i / blockSize * inpMul * blockSize + j * blockSize + i % blockSize
    case Interleaved => j * outputs + i
  }

  function BenchOrder(m: Mapping, blockSize: nat, inpMul: nat, outputs: nat, i: nat): (r: seq<nat>)
    requires blockSize > 0
    ensures |r| == inpMul && forall j :: 0 <= j < inpMul ==> r[j] == BenchInput(m, blockSize, inpMul, outputs, i, j)
  {
    seq(inpMul, (j: nat) => BenchInput(m, blockSize, inpMul, outputs, i, j))
  }

  /** Reading index j back from a thread number. */
  function BenchSlot(m: Mapping, blockSize: nat, inpMul: nat, outputs: nat, t: nat): nat
    requires blockSize > 0 && inpMul > 0 && outputs > 0
  {
    match m
    case Contiguous => (t / blockSize) % inpMul
    case Interleaved => t / outputs
  }

  /** Thread `BenchInput(i, j)` exists, adds to output `i`, and is the j-th of its group. */
  lemma HostToDevice(m: Mapping, blockSize: nat, inpMul: nat, blocks: nat, i: nat, j: nat)
    requires blockSize > 0 && i < blocks * blockSize && j < inpMul
    ensures blocks * blockSize > 0
    ensures var outputs := blocks * blockSize; var t := BenchInput(m, blockSize, inpMul, outputs, i, j);
      && t < inpMul * outputs
      && BenchTarget(m, blockSize, inpMul, outputs, t) == i
      && BenchSlot(m, blockSize, inpMul, outputs, t) == j
  {
    var outputs := blocks * blockSize;
    match m
    case Interleaved =>
      RowIndex(j, i, inpMul, outputs);
      DivModUnique(j * outputs + i, outputs, j, i);
    case Contiguous =>
      var b, x := i / blockSize, i % blockSize;
      DivMod(i, blockSize);
      DivLt(i, blockSize, blocks);
      RowIndex(b, j, blocks, inpMul);
      var row := b * inpMul + j;
      Distribute(b * inpMul, j, blockSize);
      var t := BenchInput(m, blockSize, inpMul, outputs, i, j);
      assert t == row * blockSize + x;
      RowIndex(row, x, blocks * inpMul, blockSize);
      Associate(blocks, inpMul, blockSize);
      assert (blocks * inpMul) * blockSize == outputs * inpMul;
      DivModUnique(t, blockSize, row, x);
      DivModUnique(row, inpMul, b, j);
  }

  /** Every thread is one of the host's inputs for the output it adds to. */
  lemma DeviceToHost(m: Mapping, blockSize: nat, inpMul: nat, blocks: nat, t: nat)
    requires blockSize > 0 && inpMul > 0 && blocks > 0 && t < inpMul * (blocks * blockSize)
    ensures blocks * blockSize > 0
    ensures var outputs := blocks * blockSize;
      var i, j := BenchTarget(m, blockSize, inpMul, outputs, t), BenchSlot(m, blockSize, inpMul, outputs, t);
      i < outputs && j < inpMul && BenchInput(m, blockSize, inpMul, outputs, i, j) == t
  {
    MulLe(1, blocks, blockSize);
    var outputs := blocks * blockSize;
    match m
    case Interleaved =>
      DivMod(t, outputs);
      DivLt(t, outputs, inpMul);
    case Contiguous =>
      var row, x := t / blockSize, t % blockSize;
      DivMod(t, blockSize);
      Associate(inpMul, blocks, blockSize);
      DivLt(t, blockSize, inpMul * blocks);
      var b, j := row / inpMul, row % inpMul;
      DivMod(row, inpMul);
      DivLt(row, inpMul, blocks);
      RowIndex(b, x, blocks, blockSize);
      DivModUnique(b * blockSize + x, blockSize, b, x);
      Distribute(b * inpMul, j, blockSize);
  }

  /** In both mapping modes the kernel's guard never drops a thread, and output `i` receives exactly the
      inputs `get_input_idx(i, 0)`, ..., `get_input_idx(i, inp_mul - 1)`, each once. */
  lemma BenchGroups(m: Mapping, blockSize: nat, inpMul: nat, blocks: nat, i: nat)
    requires blockSize > 0 && inpMul > 0 && i < blocks * blockSize
    ensures var outputs := blocks * blockSize;
      && (forall t: nat :: t < inpMul * outputs ==> BenchTarget(m, blockSize, inpMul, outputs, t) < outputs)
      && Groups(inpMul * outputs, (t: nat) => BenchTarget(m, blockSize, inpMul, outputs, t), i,
                BenchOrder(m, blockSize, inpMul, outputs, i))
  {
    var outputs := blocks * blockSize;
    var order := BenchOrder(m, blockSize, inpMul, outputs, i);
    forall j, k | 0 <= j < k < inpMul ensures order[j] != order[k] {
      HostToDevice(m, blockSize, inpMul, blocks, i, j);
      HostToDevice(m, blockSize, inpMul, blocks, i, k);
    }
    forall t: nat ensures t < inpMul * outputs ==> BenchTarget(m, blockSize, inpMul, outputs, t) < outputs {
      if t < inpMul * outputs { DeviceToHost(m, blockSize, inpMul, blocks, t); }
    }
    forall t: nat ensures t in order <==> t < inpMul * outputs && BenchTarget(m, blockSize, inpMul, outputs, t) == i {
      if t in order {
        var j :| 0 <= j < inpMul && order[j] == t;
        HostToDevice(m, blockSize, inpMul, blocks, i, j);
      }
      if t < inpMul * outputs && BenchTarget(m, blockSize, inpMul, outputs, t) == i {
        DeviceToHost(m, blockSize, inpMul, blocks, t);
        assert order[BenchSlot(m, blockSize, inpMul, outputs, t)] == t;
      }
    }
  }

  /** Which output the thread after thread t adds to.  Contiguous: the next one, until the end of a block, whose successor
      starts on the same outputs again for `inpMul` blocks in a row.  Interleaved: the next one, round and round. */
  lemma BenchWalk(blockSize: nat, inpMul: nat, outputs: nat, t: nat)
    requires blockSize > 0 && inpMul > 0 && outputs > 0
    ensures BenchTarget(Contiguous, blockSize, inpMul, outputs, 0) == BenchTarget(Interleaved, blockSize, inpMul, outputs, 0) == 0
    ensures var i := BenchTarget(Interleaved, blockSize, inpMul, outputs, t);
      var next := BenchTarget(Interleaved, blockSize, inpMul, outputs, t + 1);
      next == if i + 1 == outputs then 0 else i + 1
    ensures var i := BenchTarget(Contiguous, blockSize, inpMul, outputs, t);
      var next := BenchTarget(Contiguous, blockSize, inpMul, outputs, t + 1);
      if (t + 1) % blockSize == 0 && (t + 1) / blockSize % inpMul != 0 then next + blockSize == i + 1 else next == i + 1
  {
    DivModUnique(0, blockSize, 0, 0);
    DivModUnique(0, inpMul, 0, 0);
    DivModUnique(0, outputs, 0, 0);
    StepMod(t, outputs);
    StepMod(t, blockSize);
    StepMod(t / blockSize, inpMul);
    Distribute(t / blockSize / inpMul, 1, blockSize);
  }

  lemma StepMod(t: nat, d: nat)
    requires d > 0
    ensures 0 <= t / d
    ensures if t % d + 1 == d then (t + 1) / d == t / d + 1 && (t + 1) % d == 0 else (t + 1) / d == t / d && (t + 1) % d == t % d + 1
  {
    DivMod(t, d);
    if t % d + 1 == d {
      Distribute(t / d, 1, d);
      DivModUnique(t + 1, d, t / d + 1, 0);
    } else {
      DivModUnique(t + 1, d, t / d, t % d + 1);
    }
  }

  // ---------------------------------------------------------------- two 16-bit lanes

  type u16 = n: nat | n < 0x1_0000

  datatype Bf16x2 = Bf16x2(x: u16, y: u16)

  /** Unsigned 16-bit addition. */
  function Wrap16(a: u16, b: u16): (r: u16)
    ensures r == (a + b) % 0x1_0000
  {
    if a + b < 0x1_0000 then a + b else a + b - 0x1_0000
  }

  /** `add_bf16x2_t` with BF16ASU16: both lanes wrap at 2^16. */
  function AddLanes(a: Bf16x2, b: Bf16x2): Bf16x2 {
    Bf16x2(Wrap16(a.x, b.x), Wrap16(a.y, b.y))
  }

  const ADD_LANES: (Bf16x2, Bf16x2) -> Bf16x2 := (a, b) => AddLanes(a, b)

  lemma AddLanesSwap(v: Bf16x2, x: Bf16x2, y: Bf16x2)
    ensures AddLanes(AddLanes(v, x), y) == AddLanes(AddLanes(v, y), x)
  {
  }

  lemma AddLanesSwaps()
    ensures AddSwaps(ADD_LANES)
  {
    forall v, x, y ensures ADD_LANES(ADD_LANES(v, x), y) == ADD_LANES(ADD_LANES(v, y), x) {
      AddLanesSwap(v, x, y);
    }
  }

  /** The launch of `reduction_kernel` as a compare-and-swap problem over the input buffer. */
  function Launch(perBlock: nat, reduceSize: nat, numBlocks: nat, input: seq<Bf16x2>): Problem<Bf16x2>
    requires perBlock * reduceSize > 0 && reduceSize > 0
  {
    Problem(numBlocks * (perBlock * reduceSize), reduceSize, Bf16x2(0, 0), ADD_LANES,
            (t: nat) => ReductionTarget(perBlock * reduceSize, reduceSize, t),
            (t: nat) => if t < |input| then input[t] else Bf16x2(0, 0))
  }

  /** What `simple_reduction` computes for output `i` after `count` rounds of its inner loop. */
  function HostSum(input: seq<Bf16x2>, reduceSize: nat, i: nat, count: nat): Bf16x2
    requires i < reduceSize && |input| >= count * reduceSize
  {
    if count == 0 then Bf16x2(0, 0)
    else
      MulLe(count - 1, count, reduceSize);
      RowIndex(count - 1, i, count, reduceSize);
      AddLanes(HostSum(input, reduceSize, i, count - 1), input[(count - 1) * reduceSize + i])
  }

  /** f(0) + ... + f(n - 1). */
  function SumOf(f: nat -> nat, n: nat): nat {
    if n == 0 then 0 else SumOf(f, n - 1) + f(n - 1)
  }

  /** One lane of the j-th input of output i. */
  function LaneX(input: seq<Bf16x2>, reduceSize: nat, i: nat): nat -> nat {
    (j: nat) => if 0 <= j * reduceSize + i < |input| then input[j * reduceSize + i].x else 0
  }

  function LaneY(input: seq<Bf16x2>, reduceSize: nat, i: nat): nat -> nat {
    (j: nat) => if 0 <= j * reduceSize + i < |input| then input[j * reduceSize + i].y else 0
  }

  lemma ModAdd(a: nat, b: nat, m: nat)
    requires m > 0
    ensures (a % m + b) % m == (a + b) % m
  {
    DivMod(a, m);
    DivMod(a % m + b, m);
    Distribute(a / m, (a % m + b) / m, m);
    DivModUnique(a + b, m, a / m + (a % m + b) / m, (a % m + b) % m);
  }

  /** Each 16-bit lane of an output is that lane's sum over the output's inputs, modulo 2^16. */
  lemma {:induction false} HostSumLanes(input: seq<Bf16x2>, reduceSize: nat, i: nat, count: nat)
    requires i < reduceSize && |input| >= count * reduceSize
    ensures HostSum(input, reduceSize, i, count).x == SumOf(LaneX(input, reduceSize, i), count) % 0x1_0000
    ensures HostSum(input, reduceSize, i, count).y == SumOf(LaneY(input, reduceSize, i), count) % 0x1_0000
  {
    if count > 0 {
      var j := count - 1;
      MulLe(j, count, reduceSize);
      RowIndex(j, i, count, reduceSize);
      HostSumLanes(input, reduceSize, i, j);
      ModAdd(SumOf(LaneX(input, reduceSize, i), j), LaneX(input, reduceSize, i)(j), 0x1_0000);
      ModAdd(SumOf(LaneY(input, reduceSize, i), j), LaneY(input, reduceSize, i)(j), 0x1_0000);
    }
  }

  method SimpleReduction(pOut: array<Bf16x2>, pIn: array<Bf16x2>, blockSize: nat, reduceSize: nat, numBlocks: nat)
    requires reduceSize > 0 && pOut != pIn && pOut.Length == reduceSize
    requires pIn.Length == blockSize / reduceSize * numBlocks * reduceSize
    modifies pOut
    ensures forall i :: 0 <= i < reduceSize ==>
      pOut[i] == HostSum(old(pIn[..]), reduceSize, i, blockSize / reduceSize * numBlocks)
  {
    var rounds := blockSize / reduceSize * numBlocks;
    ghost var input := pIn[..];
    for i := 0 to reduceSize
      invariant pIn[..] == input
      invariant forall k :: 0 <= k < i ==> pOut[k] == HostSum(input, reduceSize, k, rounds)
    {
      var acc := Bf16x2(0, 0);
      for j := 0 to rounds
        modifies {}
        invariant j * reduceSize <= rounds * reduceSize
        invariant acc == HostSum(input, reduceSize, i, j)
      {
        RowIndex(j, i, rounds, reduceSize);
        MulLe(j + 1, rounds, reduceSize);
        assert pIn[j * reduceSize + i] == input[j * reduceSize + i];
        acc := AddLanes(acc, pIn[j * reduceSize + i]);
      }
      pOut[i] := acc;
    }
  }

  lemma {:induction false} HostSumIsTotal(p: Problem<Bf16x2>, reduceSize: nat, input: seq<Bf16x2>, i: nat, count: nat)
    requires i < reduceSize && |input| >= count * reduceSize
    requires p.zero == Bf16x2(0, 0) && p.add == ADD_LANES
    requires forall t :: 0 <= t < |input| ==> p.value(t) == input[t]
    ensures HostSum(input, reduceSize, i, count) == p.Total(ReductionOrder(reduceSize, i, count))
  {
    if count > 0 {
      MulLe(count - 1, count, reduceSize);
      RowIndex(count - 1, i, count, reduceSize);
      HostSumIsTotal(p, reduceSize, input, i, count - 1);
      var order := ReductionOrder(reduceSize, i, count);
      assert order[..count - 1] == ReductionOrder(reduceSize, i, count - 1);
    }
  }

  /** Bit for bit: for every interleaving of the kernel, its output is the output of `simple_reduction`. */
  lemma KernelMatchesHost(perBlock: nat, reduceSize: nat, numBlocks: nat, input: seq<Bf16x2>, steps: seq<Step>, i: nat)
    requires perBlock * reduceSize > 0 && i < reduceSize
    requires |input| == perBlock * numBlocks * reduceSize
    requires var p := Launch(perBlock, reduceSize, numBlocks, input);
      && p.Valid() && Shape(p, Init(p)) && Legal(p, Init(p), steps)
      && forall t :: 0 <= t < p.threads ==> After(p, Init(p), steps).thread[t] == Done
    ensures var p := Launch(perBlock, reduceSize, numBlocks, input);
      After(p, Init(p), steps).cell[i] == HostSum(input, reduceSize, i, perBlock * numBlocks)
  {
    var p := Launch(perBlock, reduceSize, numBlocks, input);
    var order := ReductionOrder(reduceSize, i, perBlock * numBlocks);
    ReductionGroups(perBlock, reduceSize, numBlocks, i);
    AddLanesSwaps();
    DeviceIsHost(p, steps, i, order);
    HostSumIsTotal(p, reduceSize, input, i, perBlock * numBlocks);
  }

  /** So each lane of what the kernel leaves is the sum of that lane over inputs i, i + reduceSize, ..., modulo 2^16. */
  lemma KernelLaneSums(perBlock: nat, reduceSize: nat, numBlocks: nat, input: seq<Bf16x2>, steps: seq<Step>, i: nat)
    requires perBlock * reduceSize > 0 && i < reduceSize
    requires |input| == perBlock * numBlocks * reduceSize
    requires var p := Launch(perBlock, reduceSize, numBlocks, input);
      && p.Valid() && Shape(p, Init(p)) && Legal(p, Init(p), steps)
      && forall t :: 0 <= t < p.threads ==> After(p, Init(p), steps).thread[t] == Done
    ensures var p := Launch(perBlock, reduceSize, numBlocks, input);
      var cell := After(p, Init(p), steps).cell[i];
      && cell.x == SumOf(LaneX(input, reduceSize, i), perBlock * numBlocks) % 0x1_0000
      && cell.y == SumOf(LaneY(input, reduceSize, i), perBlock * numBlocks) % 0x1_0000
  {
    KernelMatchesHost(perBlock, reduceSize, numBlocks, input, steps, i);
    MulLe(0, perBlock, numBlocks);
    HostSumLanes(input, reduceSize, i, perBlock * numBlocks);
  }
}
