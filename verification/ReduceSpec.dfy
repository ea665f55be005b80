/** The specification side of the cross-workgroup reduction: column folds over the rows of the
    input, in the order the host adds them and in the order a device lane adds them.

    Elements have an abstract type `T` with an `add`.  Floating-point addition is commutative but not
    associative, so no lemma here uses associativity unless its `requires` says so. */
module ReduceSpec {
  import opened Arith
  import opened Folds

  ghost predicate Commutative<T(!new)>(add: (T, T) -> T) {
    forall x, y :: add(x, y) == add(y, x)
  }

  ghost predicate Associative<T(!new)>(add: (T, T) -> T) {
    forall x, y, z :: add(add(x, y), z) == add(x, add(y, z))
  }

  /** Entry `lane` of row `row` of a row-major `rows` x `lanes` matrix. */
  function At<T>(input: seq<T>, rows: nat, lanes: nat, row: nat, lane: nat): T
    requires |input| == rows * lanes && row < rows && lane < lanes
  {
    RowIndex(row, lane, rows, lanes);
    input[row * lanes + lane]
  }

  /** `((zero + row 0) + row 1) + ...`, the host's order, with the running sum on the left. */
  function HostFold<T>(add: (T, T) -> T, zero: T, input: seq<T>, rows: nat, lanes: nat, count: nat, lane: nat): T
    requires |input| == rows * lanes && count <= rows && lane < lanes
  {
    if count == 0 then zero
    else add(HostFold(add, zero, input, rows, lanes, count - 1, lane), At(input, rows, lanes, count - 1, lane))
  }

  /** Rows follow one another in the input: one more row of `lanes` elements adds its own element to each lane's sum. */
  lemma AppendRow<T>(add: (T, T) -> T, zero: T, input: seq<T>, row: seq<T>, rows: nat, lanes: nat, lane: nat)
    requires |input| == rows * lanes && |row| == lanes && lane < lanes
    ensures |input + row| == (rows + 1) * lanes
    ensures HostFold(add, zero, input + row, rows + 1, lanes, rows + 1, lane)
         == add(HostFold(add, zero, input, rows, lanes, rows, lane), row[lane])
  {
    Distribute(rows, 1, lanes);
    EarlierRows(add, zero, input, row, rows, lanes, rows, lane);
    assert At(input + row, rows + 1, lanes, rows, lane) == row[lane];
  }

  lemma {:induction false} EarlierRows<T>(add: (T, T) -> T, zero: T, input: seq<T>, row: seq<T>, rows: nat, lanes: nat,
                                          count: nat, lane: nat)
    requires |input| == rows * lanes && |row| == lanes && lane < lanes && count <= rows && |input + row| == (rows + 1) * lanes
    ensures HostFold(add, zero, input + row, rows + 1, lanes, count, lane) == HostFold(add, zero, input, rows, lanes, count, lane)
  {
    if count > 0 {
      EarlierRows(add, zero, input, row, rows, lanes, count - 1, lane);
      RowIndex(count - 1, lane, rows, lanes);
      assert At(input + row, rows + 1, lanes, count - 1, lane) == At(input, rows, lanes, count - 1, lane);
    }
  }

  /** The value a lane accumulates when blocks commit in the order listed, the operand loaded from the
      input on the left. */
  function OrderFold<T>(add: (T, T) -> T, zero: T, input: seq<T>, rows: nat, lanes: nat, order: seq<nat>, lane: nat): T
    requires |input| == rows * lanes && lane < lanes
    requires forall i :: 0 <= i < |order| ==> order[i] < rows
  {
    if order == [] then zero
    else
      var last := |order| - 1;
      add(At(input, rows, lanes, order[last], lane), OrderFold(add, zero, input, rows, lanes, order[..last], lane))
  }

  /** Block order 0, 1, ..., count-1. */
  function Ascending(count: nat): (r: seq<nat>)
    ensures |r| == count
    ensures forall i :: 0 <= i < count ==> r[i] == i
  {
    seq(count, i requires 0 <= i < count => i)
  }

  /** Committing in block order reproduces the host's sum using commutativity alone. */
  lemma {:induction false} AscendingIsHost<T(!new)>(add: (T, T) -> T, zero: T, input: seq<T>, rows: nat, lanes: nat, count: nat, lane: nat)
    requires |input| == rows * lanes && count <= rows && lane < lanes
    requires Commutative(add)
    ensures OrderFold(add, zero, input, rows, lanes, Ascending(count), lane)
         == HostFold(add, zero, input, rows, lanes, count, lane)
  {
    if count > 0 {
      assert Ascending(count)[..count - 1] == Ascending(count - 1);
      AscendingIsHost(add, zero, input, rows, lanes, count - 1, lane);
    }
  }

  /** Each row below `count` occurs once. */
  ghost predicate IsPermutation(order: seq<nat>, count: nat) {
    Distinct(order) && forall row: nat :: row in order <==> row < count
  }

  /** The device's accumulation of one row, as a fold step on row numbers. */
  function AddRow<T>(add: (T, T) -> T, input: seq<T>, rows: nat, lanes: nat, lane: nat): (T, nat) -> T
    requires |input| == rows * lanes && lane < lanes
  {
    (sum, row: nat) => if row < rows then add(At(input, rows, lanes, row, lane), sum) else sum
  }

  lemma {:induction false} OrderFoldBy<T>(add: (T, T) -> T, zero: T, input: seq<T>, rows: nat, lanes: nat, order: seq<nat>, lane: nat)
    requires |input| == rows * lanes && lane < lanes
    requires forall i :: 0 <= i < |order| ==> order[i] < rows
    ensures OrderFold(add, zero, input, rows, lanes, order, lane)
         == FoldBy(AddRow(add, input, rows, lanes, lane), zero, order)
  {
    if order != [] {
      OrderFoldBy(add, zero, input, rows, lanes, order[..|order| - 1], lane);
    }
  }

  lemma AddRowSwaps<T(!new)>(add: (T, T) -> T, input: seq<T>, rows: nat, lanes: nat, lane: nat)
    requires |input| == rows * lanes && lane < lanes
    requires Commutative(add) && Associative(add)
    ensures Swaps(AddRow(add, input, rows, lanes, lane))
  {
    var f := AddRow(add, input, rows, lanes, lane);
    forall b, x: nat, y: nat ensures f(f(b, x), y) == f(f(b, y), x) {
      if x < rows && y < rows {
        var p, q := At(input, rows, lanes, x, lane), At(input, rows, lanes, y, lane);
        assert add(q, add(p, b)) == add(add(q, p), b) == add(add(p, q), b) == add(p, add(q, b));
      }
    }
  }

  /** Any commit order gives the host's sum once add is also associative. */
  lemma PermutationIsHost<T(!new)>(add: (T, T) -> T, zero: T, input: seq<T>, rows: nat, lanes: nat, order: seq<nat>, count: nat, lane: nat)
    requires |input| == rows * lanes && count <= rows && lane < lanes
    requires IsPermutation(order, count)
    requires Commutative(add) && Associative(add)
    ensures forall i :: 0 <= i < |order| ==> order[i] < rows
    ensures OrderFold(add, zero, input, rows, lanes, order, lane) == HostFold(add, zero, input, rows, lanes, count, lane)
  {
    forall i | 0 <= i < |order| ensures order[i] < rows {
      assert order[i] in order;
    }
    forall row: nat ensures row in Ascending(count) <==> row < count {
      if row < count {
        assert Ascending(count)[row] == row;
      }
    }
    SameMembers(order, Ascending(count));
    AddRowSwaps(add, input, rows, lanes, lane);
    FoldPermuted(AddRow(add, input, rows, lanes, lane), zero, order, Ascending(count));
    OrderFoldBy(add, zero, input, rows, lanes, order, lane);
    OrderFoldBy(add, zero, input, rows, lanes, Ascending(count), lane);
    AscendingIsHost(add, zero, input, rows, lanes, count, lane);
  }

  /** The host reference: one accumulating loop per output lane. */
  method HostWorkgroupReduce<T>(add: (T, T) -> T, zero: T, pIn: array<T>, pOut: array<T>, groups: nat, length: nat)
    requires pIn != pOut && pIn.Length == groups * length && pOut.Length == length
    modifies pOut
    ensures forall l :: 0 <= l < length ==> pOut[l] == HostFold(add, zero, pIn[..], groups, length, groups, l)
  {
    ghost var input := pIn[..];
    for l := 0 to length
      invariant pIn[..] == input
      invariant forall k :: 0 <= k < l ==> pOut[k] == HostFold(add, zero, input, groups, length, groups, k)
    {
      var sum := zero;
      for g := 0 to groups
        modifies {}
        invariant sum == HostFold(add, zero, input, groups, length, g, l)
      {
        RowIndex(g, l, groups, length);
        assert pIn[g * length + l] == input[g * length + l];
        sum := add(sum, pIn[g * length + l]);
      }
      pOut[l] := sum;
    }
  }
}
