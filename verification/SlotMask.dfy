/** The compile-time issue slots of `gemm_pipeline_traits`: a bit mask per loop slot says which global loads to
    issue there. */
module SlotMask {
  import opened Arith

  // ---------------------------------------------------------------- bit masks

  function Bit(m: nat, b: nat): bool {
    m / Pow2(b) % 2 == 1
  }

  /** `m | (1 << b)`. */
  function SetBit(m: nat, b: nat): nat {
    if Bit(m, b) then m else m + Pow2(b)
  }

  /** Bits lo .. hi - 1. */
  function Block(lo: nat, hi: nat): nat
    requires lo <= hi
  {
    Pow2Mono(lo, hi);
    Pow2(hi) - Pow2(lo)
  }

  /** `__builtin_ffs(m) - 1` and `31 - __builtin_clz(m)`. */
  function Lowest(m: nat): nat
    requires m > 0
  {
    if m % 2 == 1 then 0 else 1 + Lowest(m / 2)
  }

  function Highest(m: nat): nat
    requires m > 0
  {
    if m == 1 then 0 else 1 + Highest(m / 2)
  }

  lemma Halve(lo: nat, hi: nat)
    requires 0 < lo <= hi
    ensures Block(lo, hi) == 2 * Block(lo - 1, hi - 1)
  {
  }

  lemma {:induction false} BlockLowest(lo: nat, hi: nat)
    requires lo < hi
    ensures Block(lo, hi) > 0 && Lowest(Block(lo, hi)) == lo
  {
    Pow2Mono(lo + 1, hi);
    if lo > 0 {
      BlockLowest(lo - 1, hi - 1);
      Halve(lo, hi);
    }
  }

  lemma {:induction false} BlockHighest(lo: nat, hi: nat)
    requires lo < hi
    ensures Block(lo, hi) > 0 && Highest(Block(lo, hi)) == hi - 1
  {
    Pow2Mono(lo + 1, hi);
    if hi > 1 {
      if lo > 0 {
        BlockHighest(lo - 1, hi - 1);
        Halve(lo, hi);
      } else {
        BlockHighest(0, hi - 1);
        assert Block(0, hi) == 2 * Block(0, hi - 1) + 1;
      }
    }
  }

  lemma NextBit(lo: nat, hi: nat)
    requires lo <= hi
    ensures SetBit(Block(lo, hi), hi) == Block(lo, hi + 1)
  {
    Pow2Mono(lo, hi);
    DivModUnique(Block(lo, hi), Pow2(hi), 0, Block(lo, hi));
  }

  // ---------------------------------------------------------------- decoding

  function Range(first: nat, count: nat): (s: seq<nat>)
    ensures |s| == count
  {
    seq(count, i requires 0 <= i => first + i)
  }

  /** `gld_issue_info`. */
  datatype Info = Info(issueId: nat, numIssues: nat)

  /** `decode_mask`: the bits from the lowest to the highest set one. */
  function Decode(m: nat): Info
    requires m > 0
  {
    var pos, clz := Lowest(m) + 1, 31 - Highest(m);
    LowestBelow(m);
    Info(pos - 1, (32 - clz) - pos + 1)
  }

  /** The issues of a slot. */
  function Decoded(m: nat): seq<nat> {
    if m == 0 then [] else Range(Decode(m).issueId, Decode(m).numIssues)
  }

  lemma {:induction false} LowestBelow(m: nat)
    requires m > 0
    ensures Lowest(m) <= Highest(m)
  {
    if m % 2 == 0 { LowestBelow(m / 2); }
  }

  lemma DecodedBlock(lo: nat, hi: nat)
    requires lo <= hi
    ensures Decoded(Block(lo, hi)) == Range(lo, hi - lo)
  {
    if lo < hi {
      BlockLowest(lo, hi);
      BlockHighest(lo, hi);
    }
  }

  /** The issues of every slot, and those of the first `n` slots in order. */
  function Issues(mask: seq<nat>): (issues: seq<seq<nat>>)
    ensures |issues| == |mask|
  {
    seq(|mask|, s requires 0 <= s < |mask| => Decoded(mask[s]))
  }

  function Joined(issues: seq<seq<nat>>, n: nat): seq<nat>
    requires n <= |issues|
  {
    if n == 0 then [] else Joined(issues, n - 1) + issues[n - 1]
  }

  // ---------------------------------------------------------------- encoding

  /** One side's parameters, after its start slot has been chosen. */
  datatype Plan = Plan(slots: nat, start: nat, issues: nat, perGroup: nat, distance: nat)
  {
    function Groups(): nat requires perGroup > 0 { issues / perGroup }

    /** The static assertions, and the array bound that constant evaluation enforces. */
    predicate Valid() {
      && perGroup > 0 && issues % perGroup == 0 && issues <= 32 && start < slots
      && (Groups() > 0 ==> Slot(Groups() - 1) < slots)
    }

    /** `start_idx + i * issue_distance` and `i * issues_per_group`. */
    function Slot(i: nat): nat { if i == 0 then start else Slot(i - 1) + distance }

    function GroupStart(i: nat): nat { if i == 0 then 0 else GroupStart(i - 1) + perGroup }
  }

  lemma {:induction false} Products(p: Plan, i: nat)
    ensures p.Slot(i) == p.start + i * p.distance && p.GroupStart(i) == i * p.perGroup
  {
    if i > 0 {
      Products(p, i - 1);
      Distribute(i - 1, 1, p.distance);
      Distribute(i - 1, 1, p.perGroup);
    }
  }

  lemma {:induction false} SlotOrder(p: Plan, i: nat, j: nat)
    requires i <= j
    ensures p.Slot(i) <= p.Slot(j)
    ensures i < j && p.distance > 0 ==> p.Slot(i) < p.Slot(j)
    ensures p.distance == 0 ==> p.Slot(j) == p.start
  {
    if i < j { SlotOrder(p, i, j - 1); } else if i > 0 { SlotOrder(p, i - 1, i - 1); }
  }

  lemma AllGroups(p: Plan)
    requires p.Valid()
    ensures p.Groups() >= 0 && p.GroupStart(p.Groups()) == p.issues
  {
    DivMod(p.issues, p.perGroup);
    Products(p, p.Groups());
  }

  predicate Lands(p: Plan, i: nat, s: nat) { p.Slot(i) == s }

  /** No group goes to slot s. */
  predicate Free(p: Plan, s: nat, groups: nat) {
    forall i: nat :: i < groups ==> !Lands(p, i, s)
  }

  function GroupMask(p: Plan, i: nat): nat { Block(p.GroupStart(i), p.GroupStart(i) + p.perGroup) }

  /** What slot s holds after the first `groups` groups: the last of them that was written there. */
  function Content(p: Plan, s: nat, groups: nat): nat {
    if groups == 0 then 0
    else if p.Slot(groups - 1) == s then GroupMask(p, groups - 1)
    else Content(p, s, groups - 1)
  }

  ghost predicate Holds(p: Plan, mask: seq<nat>, groups: nat) {
    |mask| == p.slots && forall s: nat :: s < p.slots ==> mask[s] == Content(p, s, groups)
  }

  /** `traits_util::operator()`. */
  method BuildMask(p: Plan) returns (mask: seq<nat>)
    requires p.Valid()
    ensures Holds(p, mask, p.Groups())
  {
    mask := seq(p.slots, _ => 0);
    AllGroups(p);
    for i := 0 to p.Groups()
      invariant Holds(p, mask, i)
    {
      Products(p, i);
      var currentIdx, tmp := p.start + i * p.distance, 0;
      for j := 0 to p.perGroup
        invariant tmp == Block(p.GroupStart(i), p.GroupStart(i) + j)
      {
        NextBit(p.GroupStart(i), p.GroupStart(i) + j);
        tmp := SetBit(tmp, i * p.perGroup + j);
      }
      SlotOrder(p, i, p.Groups() - 1);
      mask := mask[currentIdx := tmp];
    }
  }

  /** A group that no later one overwrites is found in its slot. */
  lemma {:induction false} ContentOf(p: Plan, s: nat, i: nat, groups: nat)
    requires i < groups && (p.distance > 0 || i + 1 == groups) && s == p.Slot(i)
    ensures Content(p, s, groups) == GroupMask(p, i)
  {
    if i < groups - 1 {
      SlotOrder(p, i, groups - 1);
      ContentOf(p, s, i, groups - 1);
    }
  }

  lemma {:induction false} ContentNone(p: Plan, s: nat, groups: nat)
    requires Free(p, s, groups)
    ensures Content(p, s, groups) == 0
  {
    if groups > 0 {
      assert !Lands(p, groups - 1, s);
      ContentNone(p, s, groups - 1);
    }
  }

  lemma BitHalf(m: nat, b: nat)
    requires b > 0
    ensures Bit(m, b) <==> Bit(m / 2, b - 1)
  {
    var p := Pow2(b - 1);
    DivTwice(m, p);
  }

  lemma DivTwice(m: nat, p: nat)
    requires p > 0
    ensures 0 <= m / 2 && m / (2 * p) == m / 2 / p
  {
    var h := m / 2;
    var q, r := h / p, h % p;
    DivMod(m, 2);
    DivMod(h, p);
    Associate(2, q, p);
    Associate(q, 2, p);
    DivModUnique(m, 2 * p, q, 2 * r + m % 2);
  }

  lemma {:induction false} BlockBits(lo: nat, hi: nat, b: nat)
    requires lo <= hi
    ensures Bit(Block(lo, hi), b) <==> lo <= b < hi
    decreases hi
  {
    if lo == hi {
      DivModUnique(0, Pow2(b), 0, 0);
    } else {
      var low := if lo > 0 then lo - 1 else 0;
      NextBlock(lo, hi, low);
      BitOfDouble(Block(low, hi - 1), if lo > 0 then 0 else 1, b);
      if b > 0 { BlockBits(low, hi - 1, b - 1); }
    }
  }

  lemma NextBlock(lo: nat, hi: nat, low: nat)
    requires lo < hi && low == if lo > 0 then lo - 1 else 0
    ensures Block(lo, hi) == 2 * Block(low, hi - 1) + if lo > 0 then 0 else 1
  {
    if lo > 0 { Halve(lo, hi); }
  }

  lemma BitOfDouble(m: nat, bit: nat, b: nat)
    requires bit < 2
    ensures Bit(2 * m + bit, b) <==> if b == 0 then bit == 1 else Bit(m, b - 1)
  {
    if b > 0 { BitHalf(2 * m + bit, b); }
  }

  /** The group of load b, and where it ends. */
  lemma GroupOfLoad(p: Plan, b: nat, i: nat)
    requires p.perGroup > 0
    ensures p.GroupStart(i) <= b < p.GroupStart(i) + p.perGroup <==> b / p.perGroup == i
  {
    Products(p, i);
    DivMod(b, p.perGroup);
    if i * p.perGroup <= b < i * p.perGroup + p.perGroup { DivModUnique(b, p.perGroup, i, b - i * p.perGroup); }
  }

  /** Bit b of slot s: load b is issued there exactly when its group, number b / perGroup, starts in that slot, at
      start + group * distance, and is not overwritten by a later group of the same slot. */
  lemma MaskBits(p: Plan, mask: seq<nat>, s: nat, b: nat)
    requires p.Valid() && Holds(p, mask, p.Groups()) && s < p.slots
    ensures b / p.perGroup >= 0
    ensures Bit(mask[s], b)
       <==> b < p.issues && s == p.start + b / p.perGroup * p.distance && (p.distance > 0 || b / p.perGroup == p.Groups() - 1)
  {
    GroupCount(p);
    DivMod(b, p.perGroup);
    SlotIs(p, b / p.perGroup, s);
    LoadInGroups(p, b, p.Groups());
    ContentBits(p, s, b, p.Groups());
  }

  lemma GroupCount(p: Plan)
    requires p.Valid()
    ensures p.Groups() >= 0 && p.issues == p.Groups() * p.perGroup
  {
    DivMod(p.issues, p.perGroup);
  }

  lemma SlotIs(p: Plan, i: nat, s: nat)
    ensures p.Slot(i) == s <==> s == p.start + i * p.distance
  {
    Products(p, i);
  }

  lemma LoadInGroups(p: Plan, b: nat, groups: nat)
    requires p.perGroup > 0 && p.issues == groups * p.perGroup
    ensures 0 <= b / p.perGroup && (b / p.perGroup < groups <==> b < p.issues)
  {
    DivMod(b, p.perGroup);
    if b < p.issues { DivLt(b, p.perGroup, groups); }
    if b / p.perGroup < groups { MulLe(b / p.perGroup + 1, groups, p.perGroup); Distribute(b / p.perGroup, 1, p.perGroup); }
  }

  lemma {:induction false} ContentBits(p: Plan, s: nat, b: nat, groups: nat)
    requires p.perGroup > 0
    ensures b / p.perGroup >= 0
    ensures Bit(Content(p, s, groups), b) <==> b / p.perGroup < groups && p.Slot(b / p.perGroup) == s
                                               && (p.distance > 0 || b / p.perGroup == groups - 1)
  {
    DivMod(b, p.perGroup);
    var i := b / p.perGroup;
    if groups == 0 {
      DivModUnique(0, Pow2(b), 0, 0);
    } else {
      var last := groups - 1;
      GroupOfLoad(p, b, last);
      BlockBits(p.GroupStart(last), p.GroupStart(last) + p.perGroup, b);
      ContentBits(p, s, b, last);
      SlotOrder(p, last, last);
      if i < last { SlotOrder(p, i, last); }
    }
  }

  // ---------------------------------------------------------------- every load exactly once

  lemma SlotIssues(p: Plan, i: nat)
    ensures Decoded(GroupMask(p, i)) == Range(p.GroupStart(i), p.perGroup)
  {
    DecodedBlock(p.GroupStart(i), p.GroupStart(i) + p.perGroup);
  }

  /** The loads `first` .. `first + count - 1`, each once and in order. */
  predicate IsRange(s: seq<nat>, first: nat, count: nat) {
    |s| == count && forall i :: 0 <= i < count ==> s[i] == first + i
  }

  lemma RangeAdd(s: seq<nat>, t: seq<nat>, a: nat, b: nat)
    requires IsRange(s, 0, a) && IsRange(t, a, b)
    ensures IsRange(s + t, 0, a + b)
  {
  }

  /** Slot s issues the loads of group g. */
  predicate SlotOf(p: Plan, issues: seq<seq<nat>>, s: nat, g: nat)
    requires s < |issues|
  {
    IsRange(issues[s], p.GroupStart(g), p.perGroup)
  }

  lemma OwnSlot(p: Plan, mask: seq<nat>, s: nat, g: nat, groups: nat)
    requires Holds(p, mask, groups) && s < p.slots && g < groups && s == p.Slot(g)
    requires p.distance > 0 || g + 1 == groups
    ensures SlotOf(p, Issues(mask), s, g)
  {
    ContentOf(p, s, g, groups);
    SlotIssues(p, g);
  }

  /** Each group has its slot and the other slots are empty. */
  ghost predicate Laid(p: Plan, issues: seq<seq<nat>>, groups: nat) {
    && (forall i: nat, s: nat :: i < groups && s < |issues| && Lands(p, i, s) ==> SlotOf(p, issues, s, i))
    && (forall s: nat :: s < |issues| && Free(p, s, groups) ==> issues[s] == [])
  }

  /** Groups are in slots of their own: up to slot s the first g groups are issued. */
  lemma {:induction false} GroupsInOrder(p: Plan, issues: seq<seq<nat>>, s: nat, g: nat, groups: nat)
    requires s <= |issues| && g <= groups && (p.distance > 0 || groups <= 1) && Laid(p, issues, groups)
    requires g > 0 ==> p.Slot(g - 1) < s
    requires g < groups ==> s <= p.Slot(g)
    ensures IsRange(Joined(issues, s), 0, p.GroupStart(g))
  {
    if s > 0 && g > 0 && p.Slot(g - 1) == s - 1 {
      if g > 1 { SlotOrder(p, g - 2, g - 1); }
      GroupsInOrder(p, issues, s - 1, g - 1, groups);
      assert Lands(p, g - 1, s - 1);
      RangeAdd(Joined(issues, s - 1), issues[s - 1], p.GroupStart(g - 1), p.perGroup);
    } else if s > 0 {
      GroupsInOrder(p, issues, s - 1, g, groups);
      var prev := s - 1;
      forall i: nat | i < groups ensures !Lands(p, i, prev) {
        if i < g { SlotOrder(p, i, g - 1); } else { SlotOrder(p, g, i); }
      }
    }
  }

  lemma SlotContents(p: Plan, mask: seq<nat>, groups: nat)
    requires Holds(p, mask, groups) && (p.distance > 0 || groups <= 1)
    ensures Laid(p, Issues(mask), groups)
  {
    forall i: nat, s: nat | i < groups && s < p.slots && Lands(p, i, s) ensures SlotOf(p, Issues(mask), s, i) {
      OwnSlot(p, mask, s, i, groups);
    }
    forall s: nat | s < p.slots && Free(p, s, groups) ensures Issues(mask)[s] == [] {
      ContentNone(p, s, groups);
    }
  }

  lemma SharedSlot(p: Plan, mask: seq<nat>, groups: nat)
    requires Holds(p, mask, groups) && p.distance == 0 && groups > 0 && p.start < p.slots
    ensures |Issues(mask)[p.start]| == p.perGroup
    ensures forall s: nat :: s < p.slots && s != p.start ==> Issues(mask)[s] == []
  {
    SlotOrder(p, groups - 1, groups - 1);
    OwnSlot(p, mask, p.start, groups - 1, groups);
    forall s: nat | s < p.slots && s != p.start ensures Issues(mask)[s] == [] {
      forall i: nat | i < groups ensures !Lands(p, i, s) { SlotOrder(p, i, i); }
      ContentNone(p, s, groups);
    }
  }

  /** All groups in one slot: only the last one's loads are issued. */
  lemma {:induction false} LastGroupWins(p: Plan, issues: seq<seq<nat>>, s: nat)
    requires s <= |issues| && p.start < |issues| && |issues[p.start]| == p.perGroup
    requires forall s: nat :: s < |issues| && s != p.start ==> issues[s] == []
    ensures |Joined(issues, s)| == if s <= p.start then 0 else p.perGroup
  {
    if s > 0 { LastGroupWins(p, issues, s - 1); }
  }

  /** How many groups lie in the first s slots. */
  lemma {:induction false} GroupsBefore(p: Plan, s: nat, n: nat) returns (g: nat)
    requires p.perGroup > 0
    ensures g <= n && (g > 0 ==> p.Slot(g - 1) < s) && (g < n ==> s <= p.Slot(g))
  {
    if n == 0 || p.Slot(n - 1) < s {
      g := n;
    } else {
      g := GroupsBefore(p, s, n - 1);
    }
  }

  /** A loop of `total` slots issues loads 0 .. issues - 1, each exactly once and in order, if and only if no two
      groups share a slot and the last group's slot is one of the loop's. */
  lemma IssuedExactlyOnce(p: Plan, mask: seq<nat>, total: nat)
    requires p.Valid() && Holds(p, mask, p.Groups())
    ensures IsRange(Joined(Issues(mask), if total < p.slots then total else p.slots), 0, p.issues)
       <==> p.Groups() == 0 || ((p.Groups() == 1 || p.distance > 0) && p.Slot(p.Groups() - 1) < total)
  {
    AllGroups(p);
    IssuedByGroups(p, mask, if total < p.slots then total else p.slots, p.Groups());
  }

  lemma IssuedByGroups(p: Plan, mask: seq<nat>, s: nat, groups: nat)
    requires p.perGroup > 0 && Holds(p, mask, groups) && s <= p.slots && (groups > 0 ==> p.Slot(groups - 1) < p.slots)
    ensures IsRange(Joined(Issues(mask), s), 0, p.GroupStart(groups))
       <==> groups == 0 || ((groups == 1 || p.distance > 0) && p.Slot(groups - 1) < s)
  {
    if groups > 1 && p.distance == 0 {
      IssuedByLast(p, mask, s, groups);
    } else {
      IssuedInOrder(p, mask, s, groups);
    }
  }

  lemma IssuedByLast(p: Plan, mask: seq<nat>, s: nat, groups: nat)
    requires groups > 1 && p.distance == 0
    requires p.perGroup > 0 && Holds(p, mask, groups) && s <= p.slots && p.Slot(groups - 1) < p.slots
    ensures !IsRange(Joined(Issues(mask), s), 0, p.GroupStart(groups))
  {
    SlotOrder(p, groups - 1, groups - 1);
    SharedSlot(p, mask, groups);
    LastGroupWins(p, Issues(mask), s);
    FewerLoads(p, 1, groups);
  }

  lemma IssuedInOrder(p: Plan, mask: seq<nat>, s: nat, groups: nat)
    requires p.perGroup > 0 && Holds(p, mask, groups) && s <= p.slots && (groups > 0 ==> p.Slot(groups - 1) < p.slots)
    requires groups <= 1 || p.distance > 0
    ensures IsRange(Joined(Issues(mask), s), 0, p.GroupStart(groups)) <==> groups == 0 || p.Slot(groups - 1) < s
  {
    SlotContents(p, mask, groups);
    var g := GroupsBefore(p, s, groups);
    GroupsInOrder(p, Issues(mask), s, g, groups);
    if g < groups { LoadsMissing(p, Joined(Issues(mask), s), s, g, groups); }
  }

  /** Groups from the g-th on lie past slot s, so some loads are missing before it. */
  lemma LoadsMissing(p: Plan, issued: seq<nat>, s: nat, g: nat, groups: nat)
    requires g < groups && p.perGroup > 0 && IsRange(issued, 0, p.GroupStart(g)) && s <= p.Slot(g)
    ensures !IsRange(issued, 0, p.GroupStart(groups)) && p.Slot(groups - 1) >= s
  {
    FewerLoads(p, g, groups);
    SlotOrder(p, g, groups - 1);
  }

  lemma {:induction false} FewerLoads(p: Plan, g: nat, groups: nat)
    requires g < groups && p.perGroup > 0
    ensures p.GroupStart(g) < p.GroupStart(groups)
  {
    if g < groups - 1 { FewerLoads(p, g, groups - 1); }
  }

  /** What the wait count adds for a mask: as many loads as its slot issues. */
  function NumIssues(m: nat): (n: nat)
    ensures n == |Decoded(m)|
  {
    if m == 0 then 0 else Decode(m).numIssues
  }

  /** What `WaitCount.GetWaitcntBefore` asks of it: only the empty mask issues nothing. */
  lemma SomeIssues(m: nat)
    ensures NumIssues(m) == 0 <==> m == 0
  {
    if m > 0 { LowestBelow(m); }
  }

  // ---------------------------------------------------------------- accepted traits that fail

  /** Two groups at distance 0 share slot 0, and one of the two loads is never issued. */
  lemma SharedSlotExample(mask: seq<nat>)
    requires Holds(Plan(2, 0, 2, 1, 0), mask, 2)
    ensures Plan(2, 0, 2, 1, 0).Valid() && !IsRange(Joined(Issues(mask), 2), 0, 2)
  {
    var p := Plan(2, 0, 2, 1, 0);
    assert p.Groups() == 2 && p.Slot(1) == 0;
    IssuedExactlyOnce(p, mask, 2);
  }

  /** Two groups in slots 0 and 1 of a loop with one slot: the second load is never issued. */
  lemma ShortLoopExample(mask: seq<nat>)
    requires Holds(Plan(2, 0, 2, 1, 1), mask, 2)
    ensures Plan(2, 0, 2, 1, 1).Valid() && !IsRange(Joined(Issues(mask), 1), 0, 2)
  {
    var p := Plan(2, 0, 2, 1, 1);
    assert p.Groups() == 2 && p.Slot(1) == 1;
    IssuedExactlyOnce(p, mask, 1);
  }
}
