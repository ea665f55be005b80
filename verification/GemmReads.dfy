/** The LDS reads of the `gemm` body of `gemm_pipeline_flat`: one A buffer per fragment row, two B buffers used in
    turn, each B fragment read one slot ahead, and a fence per slot up to the slot in which the next tile is stored. */
module GemmReads {
  import opened Arith

  /** M_REPEAT, N_REPEAT, K_REPEAT and the trait `other_slots`. */
  datatype Shape = Shape(mRepeat: nat, nRepeat: nat, kRepeat: nat, otherSlots: nat)
  {
    function Plane(): nat { MulLe(0, mRepeat, nRepeat); mRepeat * nRepeat }
    function Total(): nat { MulLe(0, kRepeat, Plane()); kRepeat * Plane() }

    /** With a single column there is a single B buffer, which only one accumulator can do with. */
    predicate Valid() {
      && mRepeat > 0 && nRepeat > 0 && kRepeat > 0 && Plane() > 0 && 1 <= otherSlots <= Total()
      && (nRepeat >= 2 || Plane() == 1)
    }

    /** The last slot with a fence, after which the tile may be overwritten. */
    function LastFence(): nat requires Valid() { Total() - otherSlots }

    /** `need_sld_b_prefetch`. */
    predicate Prefetches(i: nat) requires Plane() > 0 { i % Plane() + 1 < Plane() }

    /** `sld_fence_cnt`. */
    function FenceCount(i: nat): nat requires Valid() { if Prefetches(i) && i != LastFence() then 1 else 0 }

    /** No slot after the last fence reads LDS. */
    predicate Fits() { otherSlots == 1 || (otherSlots == 2 && Plane() >= 2) }
  }

  // ---------------------------------------------------------------- which reads the fences cover

  /** How many reads slot i issues, and all slots before it. */
  function SlotReads(s: Shape, i: nat): nat
    requires s.Plane() > 0
  {
    (if i % s.Plane() == 0 then s.mRepeat + 1 else 0) + (if s.Prefetches(i) then 1 else 0)
  }

  function ReadsBefore(s: Shape, i: nat): nat
    requires s.Plane() > 0
  {
    if i == 0 then 0 else ReadsBefore(s, i - 1) + SlotReads(s, i - 1)
  }

  /** The place of the read of slot i's B fragment: after the A fragments of its own slot, or the last of the slot before. */
  function OperandRead(s: Shape, i: nat): int
    requires s.Plane() > 0
  {
    if i % s.Plane() == 0 then ReadsBefore(s, i) + s.mRepeat else ReadsBefore(s, i) - 1
  }

  /** How many reads have returned for certain when slot i multiplies, reads returning in order. */
  function Returned(s: Shape, i: nat): int
    requires s.Valid()
  {
    if i <= s.LastFence() then ReadsBefore(s, i + 1) - s.FenceCount(i) else ReadsBefore(s, s.LastFence() + 1)
  }

  lemma {:induction false} ReadsMono(s: Shape, i: nat, j: nat)
    requires s.Plane() > 0 && i <= j
    ensures ReadsBefore(s, i) <= ReadsBefore(s, j)
  {
    if i < j { ReadsMono(s, i, j - 1); }
  }

  /** Slot i's operands have returned when it multiplies, whatever the timing. */
  predicate OperandReady(s: Shape, i: nat)
    requires s.Valid()
  {
    OperandRead(s, i) < Returned(s, i)
  }

  lemma ReadyUpToFence(s: Shape, i: nat)
    requires s.Valid() && i <= s.LastFence()
    ensures OperandReady(s, i)
  {
    assert ReadsBefore(s, i + 1) == ReadsBefore(s, i) + SlotReads(s, i);
  }

  /** A slot's place in its plane. */
  lemma Place(s: Shape, i: nat, q: nat, r: nat)
    requires r < s.Plane() && i == q * s.Plane() + r
    ensures i % s.Plane() == r
  {
    DivModUnique(i, s.Plane(), q, r);
  }

  lemma LastSlots(s: Shape)
    requires s.Valid()
    ensures s.Total() > 0 && (s.Total() - 1) % s.Plane() == s.Plane() - 1
    ensures s.Plane() >= 2 ==> s.Total() >= 2 && s.Prefetches(s.Total() - 2)
  {
    var p := s.Plane();
    MulLt(0, s.kRepeat, p);
    Distribute(s.kRepeat, 1, p);
    MulLe(0, s.kRepeat - 1, p);
    MulLe(1, s.kRepeat, p);
    Place(s, s.Total() - 1, s.kRepeat - 1, p - 1);
    if p >= 2 { Place(s, s.Total() - 2, s.kRepeat - 1, p - 2); }
  }

  /** The last slot's operand is not covered when it is read after the last fence. */
  lemma LateRead(s: Shape)
    requires s.Valid() && !s.Fits()
    ensures s.Total() > 0 && !OperandReady(s, s.Total() - 1)
  {
    LastSlots(s);
    var last, w := s.Total() - 1, s.LastFence();
    if s.Plane() == 1 {
      ReadsMono(s, w + 1, last);
    } else {
      ReadsMono(s, w + 1, last - 1);
      assert ReadsBefore(s, last) == ReadsBefore(s, last - 1) + SlotReads(s, last - 1);
    }
  }

  /** The operands of every product have returned, exactly when no slot after the last fence reads LDS: `other_slots`
      is 1, or 2 with more than one accumulator. */
  lemma OperandsReturned(s: Shape)
    requires s.Valid()
    ensures s.Fits() <==> forall i: nat :: i < s.Total() ==> OperandReady(s, i)
  {
    if s.Fits() {
      forall i: nat | i < s.Total() ensures OperandReady(s, i) {
        if i <= s.LastFence() { ReadyUpToFence(s, i); } else { LastReady(s, i); }
      }
    } else {
      LateRead(s);
    }
  }

  lemma LastReady(s: Shape, i: nat)
    requires s.Valid() && s.Fits() && s.LastFence() < i < s.Total()
    ensures OperandReady(s, i) && i == s.LastFence() + 1 && !s.Prefetches(i) && i % s.Plane() > 0
  {
    LastSlots(s);
  }

  // ---------------------------------------------------------------- the body

  /** What an operand register holds; Nothing is whatever an overwritten tile left. */
  datatype Frag = Nothing | FragA(iM: nat, iK: nat) | FragB(iN: nat, iK: nat)

  /** A read in flight, with its buffer. */
  datatype Read = ReadA(iM: nat, iK: nat) | ReadB(buf: nat, iN: nat, iK: nat)

  datatype Bufs = Bufs(a: seq<Frag>, b: seq<Frag>)

  datatype Product = Product(a: Frag, b: Frag)

  function Deliver(bufs: Bufs, r: Read, stable: bool): Bufs {
    match r
    case ReadA(iM, iK) =>
      if iM < |bufs.a| then bufs.(a := bufs.a[iM := if stable then FragA(iM, iK) else Nothing]) else bufs
    case ReadB(buf, iN, iK) =>
      if buf < |bufs.b| then bufs.(b := bufs.b[buf := if stable then FragB(iN, iK) else Nothing]) else bufs
  }

  /** The registers once all reads have returned from the tile. */
  function Settled(bufs: Bufs, queue: seq<Read>): Bufs
    decreases |queue|
  {
    if queue == [] then bufs else Settled(Deliver(bufs, queue[0], true), queue[1..])
  }

  lemma {:induction false} SettledAppend(bufs: Bufs, queue: seq<Read>, r: Read)
    ensures Settled(bufs, queue + [r]) == Deliver(Settled(bufs, queue), r, true)
    decreases |queue|
  {
    if queue != [] {
      assert (queue + [r])[1..] == queue[1..] + [r];
      SettledAppend(Deliver(bufs, queue[0], true), queue[1..], r);
    }
  }

  predicate Sized(s: Shape, bufs: Bufs) { |bufs.a| == s.mRepeat && |bufs.b| == 2 }

  lemma {:induction false} SettledSized(s: Shape, bufs: Bufs, queue: seq<Read>)
    requires Sized(s, bufs)
    ensures Sized(s, Settled(bufs, queue))
    decreases |queue|
  {
    if queue != [] { SettledSized(s, Deliver(bufs, queue[0], true), queue[1..]); }
  }

  predicate IsSuffix(now: seq<Read>, was: seq<Read>) { |now| <= |was| && now == was[|was| - |now|..] }

  /** The first `count` A fragments of slice iK. */
  predicate HoldsA(bufs: Bufs, count: nat, iK: nat) {
    count <= |bufs.a| && forall m: nat :: m < count ==> bufs.a[m] == FragA(m, iK)
  }

  /** Slot i's A and B fragment. */
  predicate HoldsOperands(s: Shape, bufs: Bufs, i: nat)
    requires s.Valid()
  {
    DivMod(i, s.Plane());
    var iK, i2 := i / s.Plane(), i % s.Plane();
    && Sized(s, bufs) && HoldsA(bufs, s.mRepeat, iK)
    && bufs.b[i2 % 2] == FragB(i2 % s.nRepeat, iK)
  }

  /** The read of slot i's B fragment one slot ahead. */
  function Ahead(s: Shape, i: nat): Read
    requires s.Valid()
  {
    DivMod(i, s.Plane());
    ReadB(i % s.Plane() % 2, i % s.Plane() % s.nRepeat, i / s.Plane())
  }

  /** At the top of slot i: in the middle of a slice its operands are in the registers, but for the read ahead. */
  predicate AtSlot(s: Shape, bufs: Bufs, queue: seq<Read>, i: nat)
    requires s.Valid()
  {
    && Sized(s, bufs)
    && (i % s.Plane() == 0 ==> queue == [])
    && (i % s.Plane() > 0 ==> (queue == [] || queue == [Ahead(s, i)]) && HoldsOperands(s, Settled(bufs, queue), i))
  }

  /** The next slot of the same slice. */
  lemma NextInSlice(s: Shape, i: nat)
    requires s.Valid() && s.Prefetches(i)
    ensures (i + 1) % s.Plane() == i % s.Plane() + 1 && (i + 1) / s.Plane() == i / s.Plane() >= 0
  {
    DivMod(i, s.Plane());
    DivModUnique(i + 1, s.Plane(), i / s.Plane(), i % s.Plane() + 1);
  }

  lemma LastInSlice(s: Shape, i: nat)
    requires s.Valid() && !s.Prefetches(i)
    ensures (i + 1) % s.Plane() == 0
  {
    DivMod(i, s.Plane());
    Distribute(i / s.Plane(), 1, s.Plane());
    DivModUnique(i + 1, s.Plane(), i / s.Plane() + 1, 0);
  }

  /** The fence of slot i leaves its operands in the registers, and the read ahead at most outstanding. */
  lemma AfterFence(s: Shape, i: nat, bufs: Bufs, queue: seq<Read>, issued: seq<Read>)
    requires s.Valid() && Sized(s, bufs) && IsSuffix(queue, issued) && |queue| <= s.FenceCount(i)
    requires HoldsOperands(s, Settled(bufs, queue), i)
    requires s.Prefetches(i) ==> issued != [] && issued[|issued| - 1] == Ahead(s, i + 1)
    requires s.Prefetches(i) ==> Settled(bufs, queue).b[(i % s.Plane() + 1) % 2] == FragB((i + 1) % s.Plane() % s.nRepeat, i / s.Plane())
    ensures HoldsOperands(s, bufs, i) && AtSlot(s, bufs, queue, i + 1)
  {
    if s.Prefetches(i) { NextInSlice(s, i); } else { LastInSlice(s, i); }
    if queue != [] {
      assert queue == [Ahead(s, i + 1)];
      assert Settled(bufs, queue) == Deliver(bufs, Ahead(s, i + 1), true);
    }
  }

  lemma SuffixOf(a: seq<Read>, b: seq<Read>, c: seq<Read>)
    requires IsSuffix(a, b) && IsSuffix(b, c)
    ensures IsSuffix(a, c)
  {
  }

  lemma NextA(s: Shape, t: Bufs, m: nat, iK: nat)
    requires Sized(s, t) && m < s.mRepeat && HoldsA(t, m, iK)
    ensures Sized(s, Deliver(t, ReadA(m, iK), true)) && HoldsA(Deliver(t, ReadA(m, iK), true), m + 1, iK)
  {
  }

  /** A B read changes its buffer only. */
  lemma WithB(s: Shape, t: Bufs, buf: nat, iN: nat, iK: nat)
    requires Sized(s, t) && HoldsA(t, s.mRepeat, iK) && buf < 2
    ensures var t' := Deliver(t, ReadB(buf, iN, iK), true);
      Sized(s, t') && HoldsA(t', s.mRepeat, iK) && t'.b[buf] == FragB(iN, iK) && t'.b[1 - buf] == t.b[1 - buf]
  {
  }

  /** The product that slot i is meant to make. */
  function Meant(s: Shape, i: nat): Product
    requires s.Valid()
  {
    DivMod(i, s.Plane());
    DivMod(i % s.Plane(), s.nRepeat);
    Product(FragA(i % s.Plane() / s.nRepeat, i / s.Plane()), FragB(i % s.Plane() % s.nRepeat, i / s.Plane()))
  }

  /** Over the loop each A fragment meets each B fragment of its slice exactly once. */
  lemma MeantOnce(s: Shape, iM: nat, iN: nat, iK: nat) returns (i: nat)
    requires s.Valid() && iM < s.mRepeat && iN < s.nRepeat && iK < s.kRepeat
    ensures i < s.Total() && Meant(s, i) == Product(FragA(iM, iK), FragB(iN, iK))
    ensures forall j: nat :: j < s.Total() && Meant(s, j) == Product(FragA(iM, iK), FragB(iN, iK)) ==> j == i
  {
    RowIndex(iM, iN, s.mRepeat, s.nRepeat);
    var i2 := iM * s.nRepeat + iN;
    RowIndex(iK, i2, s.kRepeat, s.Plane());
    i := iK * s.Plane() + i2;
    DivModUnique(i, s.Plane(), iK, i2);
    DivModUnique(i2, s.nRepeat, iM, iN);
    forall j: nat | j < s.Total() && Meant(s, j) == Product(FragA(iM, iK), FragB(iN, iK)) ensures j == i {
      SlotOf(s, j, iM, iN, iK);
    }
  }

  lemma SlotOf(s: Shape, j: nat, iM: nat, iN: nat, iK: nat)
    requires s.Valid() && Meant(s, j) == Product(FragA(iM, iK), FragB(iN, iK))
    ensures j == iK * s.Plane() + (iM * s.nRepeat + iN)
  {
    DivMod(j, s.Plane());
    DivMod(j % s.Plane(), s.nRepeat);
  }

  lemma RowOf(s: Shape, i: nat)
    requires s.Valid() && i < s.Total()
    ensures 0 <= i % s.Plane() / s.nRepeat < s.mRepeat && 0 <= i / s.Plane() < s.kRepeat
  {
    DivMod(i, s.Plane());
    DivLt(i, s.Plane(), s.kRepeat);
    DivLt(i % s.Plane(), s.nRepeat, s.mRepeat);
  }

  /** One wave running the body: its operand registers, its LDS reads in flight, and whether the tile is still there. */
  class GemmBody {
    const s: Shape
    var bufs: Bufs
    var queue: seq<Read>
    var stable: bool
    var products: seq<Product>

    ghost predicate Valid() reads this { s.Valid() && Sized(s, bufs) }

    constructor (s: Shape)
      requires s.Valid()
      ensures Valid() && this.s == s && queue == [] && stable && products == []
    {
      this.s := s;
      bufs := Bufs(seq(s.mRepeat, _ => Nothing), [Nothing, Nothing]);
      queue, stable, products := [], true, [];
    }

    /** Some of the pending reads have returned, which changes nothing about what they all come to. */
    ghost predicate Settles(was: Bufs, pending: seq<Read>) reads this {
      IsSuffix(queue, pending) && Settled(bufs, queue) == Settled(was, pending)
    }

    /** The oldest read returns. */
    method ReturnOne()
      requires Valid() && queue != []
      modifies this`bufs, this`queue
      ensures Valid() && |queue| == old(|queue|) - 1
      ensures old(stable) ==> Settles(old(bufs), old(queue))
    {
      bufs := Deliver(bufs, queue[0], stable);
      queue := queue[1..];
    }

    /** Any number of reads return. */
    method Drift()
      requires Valid()
      modifies this`bufs, this`queue
      ensures Valid() && |queue| <= old(|queue|)
      ensures old(stable) ==> Settles(old(bufs), old(queue))
    {
      var n: nat := *;
      while n > 0 && queue != []
        invariant Valid() && |queue| <= old(|queue|) && (stable ==> Settles(old(bufs), old(queue)))
      {
        ReturnOne();
        n := n - 1;
      }
    }

    /** `sld_fence(n)`. */
    method Fence(n: nat)
      requires Valid() && stable
      modifies this`bufs, this`queue
      ensures Valid() && |queue| <= n && Settles(old(bufs), old(queue))
    {
      Drift();
      while |queue| > n
        invariant Valid() && Settles(old(bufs), old(queue))
        decreases |queue|
      {
        ReturnOne();
      }
    }

    method Enqueue(r: Read)
      requires Valid() && stable
      modifies this`bufs, this`queue
      ensures Valid() && Settles(old(bufs), old(queue) + [r])
    {
      queue := queue + [r];
      Drift();
    }

    /** A read is issued; it and earlier ones may return at any time. */
    method Issue(r: Read)
      requires Valid() && stable
      modifies this`bufs, this`queue
      ensures Valid() && IsSuffix(queue, old(queue) + [r])
      ensures Settled(bufs, queue) == Deliver(Settled(old(bufs), old(queue)), r, true)
    {
      Enqueue(r);
      SettledAppend(old(bufs), old(queue), r);
    }

    /** `sld_iter_a.load_all<i_k>()`. */
    method LoadAll(iK: nat)
      requires Valid() && stable
      modifies this`bufs, this`queue
      ensures Valid() && Sized(s, Settled(bufs, queue)) && HoldsA(Settled(bufs, queue), s.mRepeat, iK)
    {
      SettledSized(s, bufs, queue);
      for m := 0 to s.mRepeat
        invariant Valid() && Sized(s, Settled(bufs, queue)) && HoldsA(Settled(bufs, queue), m, iK)
      {
        NextA(s, Settled(bufs, queue), m, iK);
        Issue(ReadA(m, iK));
      }
    }

    /** The reads at the top of slot i, which has a fence. */
    method Reads(i: nat) returns (ghost issued: seq<Read>)
      requires Valid() && stable && AtSlot(s, bufs, queue, i)
      modifies this`bufs, this`queue
      ensures Valid() && HoldsOperands(s, Settled(bufs, queue), i) && IsSuffix(queue, issued)
      ensures s.Prefetches(i) ==> issued != [] && issued[|issued| - 1] == Ahead(s, i + 1)
      ensures s.Prefetches(i) ==>
        Settled(bufs, queue).b[(i % s.Plane() + 1) % 2] == FragB((i + 1) % s.Plane() % s.nRepeat, i / s.Plane())
    {
      DivMod(i, s.Plane());
      var iK, i2 := i / s.Plane(), i % s.Plane();
      if i2 == 0 { FirstReads(i, iK); }
      assert HoldsOperands(s, Settled(bufs, queue), i);
      issued := queue;
      if s.Prefetches(i) {
        issued := Prefetch(i, iK, i2);
      }
    }

    /** A slice's first slot reads all its A fragments and its first B fragment. */
    method FirstReads(i: nat, iK: nat)
      requires Valid() && stable && i % s.Plane() == 0 && iK == i / s.Plane()
      modifies this`bufs, this`queue
      ensures Valid() && HoldsOperands(s, Settled(bufs, queue), i)
    {
      LoadAll(iK);
      WithB(s, Settled(bufs, queue), 0, 0, iK);
      Issue(ReadB(0, 0, iK));
      DivModUnique(0, s.nRepeat, 0, 0);
    }

    /** The B fragment of the next slot is read ahead, into the buffer that slot i does not use. */
    method Prefetch(i: nat, iK: nat, i2: nat) returns (ghost issued: seq<Read>)
      requires Valid() && stable && s.Prefetches(i) && iK == i / s.Plane() && i2 == i % s.Plane()
      requires HoldsOperands(s, Settled(bufs, queue), i)
      modifies this`bufs, this`queue
      ensures Valid() && HoldsOperands(s, Settled(bufs, queue), i) && IsSuffix(queue, issued)
      ensures issued != [] && issued[|issued| - 1] == Ahead(s, i + 1)
      ensures Settled(bufs, queue).b[(i2 + 1) % 2] == FragB((i + 1) % s.Plane() % s.nRepeat, iK)
    {
      NextInSlice(s, i);
      var next := ReadB((i2 + 1) % 2, (i2 + 1) % s.nRepeat, iK);
      WithB(s, Settled(bufs, queue), (i2 + 1) % 2, (i2 + 1) % s.nRepeat, iK);
      issued := queue + [next];
      Issue(next);
    }

    /** Slot i; in a hot iteration the slot of the last fence lets the next tile be stored. */
    method Slot(i: nat, hot: bool)
      requires Valid() && s.Fits() && i < s.Total() && AtSlot(s, bufs, queue, i)
      requires i <= s.LastFence() ==> stable
      requires i > s.LastFence() ==> queue == []
      modifies this
      ensures Valid() && products == old(products) + [Meant(s, i)]
      ensures i + 1 < s.Total() ==> AtSlot(s, bufs, queue, i + 1)
      ensures i + 1 <= s.LastFence() ==> stable
      ensures i >= s.LastFence() ==> queue == []
    {
      DivMod(i, s.Plane());
      RowOf(s, i);
      if i <= s.LastFence() {
        ghost var issued := Reads(i);
        ghost var fenced := queue;
        Fence(s.FenceCount(i));
        SuffixOf(queue, fenced, issued);
        AfterFence(s, i, bufs, queue, issued);
        if i == s.LastFence() && hot { stable := false; }
      } else {
        LastReady(s, i);
      }
      products := products + [Product(bufs.a[i % s.Plane() / s.nRepeat], bufs.b[i % s.Plane() % 2])];
    }

    /** Every product multiplies the fragments it is meant to, whatever the timing of the reads. */
    method Run(hot: bool)
      requires Valid() && s.Fits() && queue == [] && stable && products == []
      modifies this
      ensures Valid() && products == seq(s.Total(), i requires 0 <= i => Meant(s, i))
    {
      DivModUnique(0, s.Plane(), 0, 0);
      for i := 0 to s.Total()
        invariant Valid() && (i < s.Total() ==> AtSlot(s, bufs, queue, i))
        invariant i <= s.LastFence() ==> stable
        invariant i > s.LastFence() ==> queue == []
        invariant products == seq(i, j requires 0 <= j => Meant(s, j))
      {
        Slot(i, hot);
      }
    }
  }
}
