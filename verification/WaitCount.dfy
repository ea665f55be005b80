/** `get_waitcnt_before`: how many loads may stay outstanding once the first side's are needed. */
module WaitCount {

  /** The loads of both sides in issue order, true for the first side; a slot issues its first side's loads first. */
  function Trace(first: seq<nat>, second: seq<nat>, n: nat): seq<bool>
    requires |first| == |second| && n <= |first|
  {
    if n == 0 then [] else Trace(first, second, n - 1) + SlotTrace(first[n - 1], second[n - 1])
  }

  function SlotTrace(first: nat, second: nat): (t: seq<bool>)
    ensures |t| == first + second
    ensures forall j :: 0 <= j < |t| ==> (t[j] <==> j < first)
  {
    seq(first, _ => true) + seq(second, _ => false)
  }

  /** The last `cnt` loads are second-side loads, and the one before is not. */
  predicate Trailing(trace: seq<bool>, cnt: nat) {
    && cnt <= |trace|
    && (forall j :: |trace| - cnt <= j < |trace| ==> !trace[j])
    && (cnt < |trace| ==> trace[|trace| - cnt - 1])
  }

  lemma TrailingNext(trace: seq<bool>, was: nat, first: nat, second: nat, cnt: nat)
    requires Trailing(trace, was) && cnt == (if first != 0 then 0 else was) + second
    ensures Trailing(trace + SlotTrace(first, second), cnt)
  {
    var t := SlotTrace(first, second);
    assert forall j :: 0 <= j < |trace| ==> (trace + t)[j] == trace[j];
    assert forall j :: 0 <= j < |t| ==> (trace + t)[|trace| + j] == t[j];
    if first != 0 { assert (trace + t)[|trace| + first - 1] == t[first - 1]; }
  }

  /** How many loads each slot issues, by the decoding of its mask. */
  function Counts(mask: seq<nat>, numIssues: nat -> nat): (counts: seq<nat>)
    ensures |counts| == |mask|
  {
    seq(|mask|, s requires 0 <= s < |mask| => numIssues(mask[s]))
  }

  /** `get_waitcnt_before`, where `numIssues` is what `decode_mask` counts in a mask. */
  method GetWaitcntBefore(first: seq<nat>, second: seq<nat>, iCurrentSlot: nat, numIssues: nat -> nat) returns (cnt: nat)
    requires |first| == |second| && forall m :: numIssues(m) == 0 <==> m == 0
    ensures iCurrentSlot < |first| ==>
      Trailing(Trace(Counts(first, numIssues), Counts(second, numIssues), iCurrentSlot + 1), cnt)
    ensures |first| <= iCurrentSlot ==> Trailing(Trace(Counts(first, numIssues), Counts(second, numIssues), |first|), cnt)
  {
    ghost var f, s := Counts(first, numIssues), Counts(second, numIssues);
    var len := if iCurrentSlot + 1 <= |first| then iCurrentSlot + 1 else |first|;
    cnt := 0;
    for i := 0 to len
      invariant Trailing(Trace(f, s, i), cnt)
    {
      ghost var was := cnt;
      if first[i] != 0 { cnt := 0; }
      if second[i] != 0 { cnt := cnt + numIssues(second[i]); }
      TrailingNext(Trace(f, s, i), was, f[i], s[i], cnt);
    }
  }

  /** `gld_fence(n)` after the loads of `trace`: whatever suffix of at most n loads is outstanding, it holds no
      first-side load. */
  ghost predicate FenceSuffices(trace: seq<bool>, n: nat) {
    forall outstanding: nat :: outstanding <= n ==> Drained(trace, outstanding)
  }

  predicate Drained(trace: seq<bool>, outstanding: nat) {
    outstanding <= |trace| ==> true !in trace[|trace| - outstanding..]
  }

  /** The count suffices and, unless the first side has no loads at all, is the largest that does. */
  lemma LargestCount(trace: seq<bool>, cnt: nat, n: nat)
    requires Trailing(trace, cnt)
    ensures FenceSuffices(trace, n) <==> n <= cnt || true !in trace
  {
    if n > cnt && true in trace {
      assert trace[|trace| - (cnt + 1)..][0];
      assert !Drained(trace, cnt + 1);
    }
  }

  // ---------------------------------------------------------------- in numbers of loads

  /** How many loads the first n slots of one side issue. */
  function Issued(counts: seq<nat>, n: nat): nat
    requires n <= |counts|
  {
    if n == 0 then 0 else Issued(counts, n - 1) + counts[n - 1]
  }

  lemma {:induction false} TraceLength(first: seq<nat>, second: seq<nat>, n: nat)
    requires |first| == |second| && n <= |first|
    ensures |Trace(first, second, n)| == Issued(first, n) + Issued(second, n)
  {
    if n > 0 { TraceLength(first, second, n - 1); }
  }

  /** The j-th load of slot s is of the first side exactly when that side has more than j loads there. */
  lemma {:induction false} LoadInTrace(first: seq<nat>, second: seq<nat>, s: nat, n: nat, j: nat)
    requires |first| == |second| && s < n <= |first| && j < first[s] + second[s]
    ensures Issued(first, s) + Issued(second, s) + j < |Trace(first, second, n)|
    ensures Trace(first, second, n)[Issued(first, s) + Issued(second, s) + j] <==> j < first[s]
  {
    TraceLength(first, second, n - 1);
    if s < n - 1 { LoadInTrace(first, second, s, n - 1, j); }
  }

  lemma {:induction false} SlotOfLoad(first: seq<nat>, second: seq<nat>, n: nat, p: nat) returns (s: nat, j: nat)
    requires |first| == |second| && n <= |first| && p < |Trace(first, second, n)|
    ensures s < n && j < first[s] + second[s] && p == Issued(first, s) + Issued(second, s) + j
  {
    TraceLength(first, second, n - 1);
    if p < |Trace(first, second, n - 1)| {
      s, j := SlotOfLoad(first, second, n - 1, p);
    } else {
      s, j := n - 1, p - |Trace(first, second, n - 1)|;
    }
  }

  /** Load j of the first side in slot s has completed once at most `cnt` of the loads of the first n slots are outstanding. */
  predicate Complete(first: seq<nat>, second: seq<nat>, n: nat, cnt: nat, s: nat, j: nat)
    requires |first| == |second| && s < n <= |first|
  {
    Issued(first, s) + Issued(second, s) + j + cnt < Issued(first, n) + Issued(second, n)
  }

  /** It is the last to complete before only `cnt` loads are outstanding. */
  predicate JustComplete(first: seq<nat>, second: seq<nat>, n: nat, cnt: nat, s: nat, j: nat)
    requires |first| == |second| && s < n <= |first|
  {
    Issued(first, s) + Issued(second, s) + j + cnt + 1 == Issued(first, n) + Issued(second, n)
  }

  /** The count returned for the first n slots: loads retire in order, so with that many outstanding all first-side loads
      of all these slots are complete, the last of them only just, unless there is none. */
  lemma DrainedLoads(first: seq<nat>, second: seq<nat>, n: nat, cnt: nat)
    requires |first| == |second| && n <= |first| && Trailing(Trace(first, second, n), cnt)
    ensures forall s: nat, j: nat :: s < n && j < first[s] ==> Complete(first, second, n, cnt, s, j)
    ensures (exists s: nat, j: nat :: s < n && j < first[s] && JustComplete(first, second, n, cnt, s, j))
         || forall s :: 0 <= s < n ==> first[s] == 0
  {
    var trace := Trace(first, second, n);
    TraceLength(first, second, n);
    forall s: nat, j: nat | s < n && j < first[s] ensures Complete(first, second, n, cnt, s, j) {
      LoadInTrace(first, second, s, n, j);
    }
    if cnt < |trace| {
      var s, j := SlotOfLoad(first, second, n, |trace| - cnt - 1);
      LoadInTrace(first, second, s, n, j);
      assert JustComplete(first, second, n, cnt, s, j);
    } else {
      forall s | 0 <= s < n ensures first[s] == 0 {
        if first[s] > 0 { LoadInTrace(first, second, s, n, 0); }
      }
    }
  }

  /** Between slots n and m only second-side loads are issued. */
  lemma {:induction false} LateLoads(first: seq<nat>, second: seq<nat>, n: nat, m: nat)
    requires |first| == |second| && n <= m <= |first|
    requires forall s :: n <= s < m ==> first[s] == 0
    ensures var early, late := Trace(first, second, n), Trace(first, second, m);
      && |early| <= |late| && late[..|early|] == early
      && (forall j :: |early| <= j < |late| ==> !late[j])
      && (|early| == |late| <==> forall s :: n <= s < m ==> second[s] == 0)
  {
    if n < m {
      LateLoads(first, second, n, m - 1);
      assert second[m - 1] == 0 || |Trace(first, second, m)| > |Trace(first, second, m - 1)|;
    }
  }

  /** A fence with count `cnt` after the first n of m slots: all first-side loads have been issued and are drained. */
  ghost predicate SafeAtFence(first: seq<nat>, second: seq<nat>, n: nat, m: nat, cnt: nat)
    requires |first| == |second| && n <= m <= |first|
  {
    && (forall s :: n <= s < m ==> first[s] == 0)
    && FenceSuffices(Trace(first, second, n), cnt)
  }

  /** No first-side load comes after the first n slots and, unless the first side has no loads, no second-side load. */
  ghost predicate QuietAfter(first: seq<nat>, second: seq<nat>, n: nat, m: nat)
    requires |first| == |second| && n <= m <= |first|
  {
    && (forall s :: n <= s < m ==> first[s] == 0)
    && (true !in Trace(first, second, n) || forall s :: n <= s < m ==> second[s] == 0)
  }

  /** The pipelines compute the count for the last slot of the loop but fence earlier, after the first n slots.  That
      is safe exactly when the slots after it are quiet. */
  lemma CountAtFence(first: seq<nat>, second: seq<nat>, n: nat, m: nat, cnt: nat)
    requires |first| == |second| && n <= m <= |first| && Trailing(Trace(first, second, m), cnt)
    ensures SafeAtFence(first, second, n, m, cnt) <==> QuietAfter(first, second, n, m)
  {
    var early, late := Trace(first, second, n), Trace(first, second, m);
    if forall s :: n <= s < m ==> first[s] == 0 {
      LateLoads(first, second, n, m);
      var c := TrailingOf(early);
      LargestCount(early, c, |early|);
      LargestCount(early, c, cnt);
      if true in early { UniqueTrailing(late, cnt, c + (|late| - |early|), |early|); }
    }
  }

  function TrailingOf(trace: seq<bool>): (cnt: nat)
    ensures Trailing(trace, cnt)
  {
    if trace == [] || trace[|trace| - 1] then 0 else TrailingOf(trace[..|trace| - 1]) + 1
  }

  lemma UniqueTrailing(trace: seq<bool>, c: nat, d: nat, n: nat)
    requires n <= |trace| && Trailing(trace, c) && |trace| - n <= d < |trace|
    requires Trailing(trace[..n], d - (|trace| - n)) && forall j :: n <= j < |trace| ==> !trace[j]
    ensures c == d
  {
    assert trace[|trace| - d - 1] == trace[..n][|trace| - d - 1];
    forall j | |trace| - d <= j < |trace| ensures !trace[j] {
      if j < n { assert trace[j] == trace[..n][j]; }
    }
  }

  /** Accepted traits that fail: the first side's load in slot 0, the second's in slot 1, a fence after slot 0.  The
      count of the loop is 1, which leaves the first side's load outstanding. */
  lemma LateLoadExample(first: seq<nat>, second: seq<nat>, cnt: nat)
    requires |first| == |second| == 2 && first[0] == 1 && first[1] == 0 && second[0] == 0 && second[1] == 1
    requires Trailing(Trace(first, second, 2), cnt)
    ensures cnt == 1 && !SafeAtFence(first, second, 1, 2, cnt)
  {
    var early, late := Trace(first, second, 1), Trace(first, second, 2);
    assert early == Trace(first, second, 0) + SlotTrace(1, 0);
    assert late == early + SlotTrace(0, 1);
    assert |early| == 1 && early[0] && |late| == 2 && late[0] && !late[1];
    CountAtFence(first, second, 1, 2, cnt);
  }
}
