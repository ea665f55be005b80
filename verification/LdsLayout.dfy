/** Where `sst_iterator_r0_s_r1` puts a tile in LDS, and where the `sld` iterators at the
    `mfma_mapping_for_sld` offset read it.

    Offsets are in elements.  A tile has `s` rows and `r` values of k in each; LDS holds it as planes of
    `pack` values of k, each plane padded by one vector. */
module LdsLayout {
  import opened Arith

  /** S_PER_BLOCK, R_PER_BLOCK, BLOCK_SIZE, R_PACK (the operand vector of an mfma) and T_PACK (ALIGNMENT). */
  datatype Tile = Tile(s: nat, r: nat, block: nat, pack: nat, align: nat)
  {
    /** Threads along a row, vectors per global load, and rows covered by one issue of all threads. */
    function Across(): nat requires align > 0 { r / align }
    function Packs(): nat requires pack > 0 { align / pack }
    function Rows(): nat requires align > 0 && r / align > 0 { block / (r / align) }

    predicate Valid() {
      && pack > 0 && align > 0 && align % pack == 0 && r > 0 && r % align == 0 && r / align > 0
      && block > 0 && block % Across() == 0 && Rows() > 0 && s > 0 && s % Rows() == 0
    }

    /** R_PACK padding plus S_PER_BLOCK vectors. */
    function Plane(): nat { pack + Product(s, pack) }

    /** `smem_size_a` or `smem_size_b`. */
    function Size(): nat requires pack > 0 { Product(r / pack, Plane()) }

    /** `n_issue` of the global load and of the LDS store. */
    function GldIssues(): nat requires block > 0 && align > 0 { s * r / block / align }
    function SstIssues(): nat requires block > 0 && pack > 0 { s * r / block / pack }
  }

  function Product(a: nat, b: nat): (p: nat)
    ensures p == a * b
  {
    MulLe(0, a, b);
    a * b
  }

  /** Row and plane of a vector in the tile. */
  datatype Vec = Vec(row: nat, plane: nat)

  predicate InTile(t: Tile, v: Vec)
    requires t.pack > 0
  {
    v.row < t.s && v.plane < t.r / t.pack
  }

  lemma QuotientPositive(x: nat, d: nat)
    requires d > 0 && x % d == 0
    ensures x == (x / d) * d && x / d >= 0
    ensures x > 0 ==> x / d > 0
  {
    DivMod(x, d);
  }

  lemma DivExact(q: nat, d: nat)
    requires d > 0
    ensures q * d >= 0 && q * d / d == q
  {
    MulLe(0, q, d);
    DivModUnique(q * d, d, q, 0);
  }

  /** The tile as products: r / pack planes, block threads, and as many issues as cover the rows. */
  lemma Factors(t: Tile)
    requires t.Valid()
    ensures t.Packs() > 0 && t.align == t.Packs() * t.pack
    ensures t.r == t.Across() * t.align && t.block == t.Rows() * t.Across()
    ensures t.s == (t.s / t.Rows()) * t.Rows() && t.s / t.Rows() > 0
    ensures t.r / t.pack == t.Across() * t.Packs()
    ensures t.GldIssues() == t.s / t.Rows() && t.SstIssues() == (t.s / t.Rows()) * t.Packs()
  {
    QuotientPositive(t.align, t.pack);
    QuotientPositive(t.r, t.align);
    QuotientPositive(t.block, t.Across());
    QuotientPositive(t.s, t.Rows());
    Associate(t.Across(), t.Packs(), t.pack);
    MulLe(0, t.Across(), t.Packs());
    DivExact(t.Across() * t.Packs(), t.pack);
    Issues(t, t.s / t.Rows());
  }

  lemma Issues(t: Tile, n: nat)
    requires t.Valid() && t.s == n * t.Rows() && t.r == t.Across() * t.align
    requires t.block == t.Rows() * t.Across() && t.align == t.Packs() * t.pack
    ensures t.GldIssues() == n && t.SstIssues() == n * t.Packs()
  {
    var rows, across := t.Rows(), t.Across();
    RegroupFour(n, rows, across, t.align);
    MulLe(0, n, t.align);
    DivExact(n * t.align, t.block);
    DivExact(n, t.align);
    Associate(n, t.Packs(), t.pack);
    MulLe(0, n, t.Packs());
    DivExact(n * t.Packs(), t.pack);
  }

  lemma RegroupFour(n: int, rows: int, across: int, align: int)
    ensures (n * rows) * (across * align) == (n * align) * (rows * across)
  {
    Associate(n, rows, across * align);
    Associate(rows, across, align);
    Associate(n, align, rows * across);
    Associate(align, rows * across, 1);
    assert align * (rows * across) == (rows * across) * align;
  }

  // ---------------------------------------------------------------- the store

  /** `v_offset()` plus the offset of issue q. */
  function StoreOffset(t: Tile, tid: nat, q: nat): int
    requires t.Valid() && t.Packs() > 0
  {
    var iR, iS := tid % t.Across(), tid / t.Across();
    var iV, i := q % t.Packs(), q / t.Packs();
    iR * (t.align / t.pack) * (t.pack + t.s * t.pack) + iS * t.pack + (i * (t.Rows() * t.pack) + iV * (t.pack + t.s * t.pack))
  }

  /** The vector of the tile that a thread stores in issue q. */
  function StoredVec(t: Tile, tid: nat, q: nat): Vec
    requires t.Valid() && t.Packs() > 0
  {
    DivMod(tid, t.Across());
    DivMod(q, t.Packs());
    Vec(tid / t.Across() + Product(q / t.Packs(), t.Rows()), Product(tid % t.Across(), t.Packs()) + q % t.Packs())
  }

  function Address(t: Tile, v: Vec): nat {
    Product(v.plane, t.Plane()) + Product(v.row, t.pack)
  }

  lemma StoreAddress(t: Tile, tid: nat, q: nat)
    requires t.Valid() && t.Packs() > 0
    ensures StoreOffset(t, tid, q) == Address(t, StoredVec(t, tid, q))
  {
    var iR, iS := tid % t.Across(), tid / t.Across();
    var iV, i := q % t.Packs(), q / t.Packs();
    Distribute(iR * t.Packs(), iV, t.Plane());
    Distribute(iS, i * t.Rows(), t.pack);
    Associate(i, t.Rows(), t.pack);
  }

  /** The thread and issue that store a vector. */
  function OwnerThread(t: Tile, v: Vec): nat
    requires t.Valid() && t.Packs() > 0
  {
    DivMod(v.plane, t.Packs());
    Product(v.row % t.Rows(), t.Across()) + v.plane / t.Packs()
  }

  function OwnerIssue(t: Tile, v: Vec): nat
    requires t.Valid() && t.Packs() > 0
  {
    DivMod(v.row, t.Rows());
    Product(v.row / t.Rows(), t.Packs()) + v.plane % t.Packs()
  }

  /** Every store writes a vector of the tile, and that vector names the store back. */
  lemma StoreToVec(t: Tile, tid: nat, q: nat)
    requires t.Valid() && t.Packs() > 0 && tid < t.block && q < t.SstIssues()
    ensures var v := StoredVec(t, tid, q); InTile(t, v) && OwnerThread(t, v) == tid && OwnerIssue(t, v) == q
  {
    Factors(t);
    var n := t.s / t.Rows();
    DivMod(tid, t.Across());
    DivLt(tid, t.Across(), t.Rows());
    DivMod(q, t.Packs());
    DivLt(q, t.Packs(), n);
    RowIndex(q / t.Packs(), tid / t.Across(), n, t.Rows());
    RowIndex(tid % t.Across(), q % t.Packs(), t.Across(), t.Packs());
    var v := StoredVec(t, tid, q);
    DivModUnique(v.row, t.Rows(), q / t.Packs(), tid / t.Across());
    DivModUnique(v.plane, t.Packs(), tid % t.Across(), q % t.Packs());
  }

  /** Every vector of the tile is stored, by its owner. */
  lemma VecToStore(t: Tile, v: Vec)
    requires t.Valid() && t.Packs() > 0 && InTile(t, v)
    ensures OwnerThread(t, v) < t.block && OwnerIssue(t, v) < t.SstIssues()
    ensures StoredVec(t, OwnerThread(t, v), OwnerIssue(t, v)) == v
  {
    Factors(t);
    var n := t.s / t.Rows();
    DivMod(v.row, t.Rows());
    DivLt(v.row, t.Rows(), n);
    DivMod(v.plane, t.Packs());
    DivLt(v.plane, t.Packs(), t.Across());
    RowIndex(v.row % t.Rows(), v.plane / t.Packs(), t.Rows(), t.Across());
    RowIndex(v.row / t.Rows(), v.plane % t.Packs(), n, t.Packs());
    DivModUnique(OwnerThread(t, v), t.Across(), v.row % t.Rows(), v.plane / t.Packs());
    DivModUnique(OwnerIssue(t, v), t.Packs(), v.row / t.Rows(), v.plane % t.Packs());
  }

  /** The LDS cell of element (row, k). */
  function Cell(t: Tile, row: nat, k: nat): nat
    requires t.pack > 0
  {
    DivMod(k, t.pack);
    Address(t, Vec(row, k / t.pack)) + k % t.pack
  }

  /** Elements stay inside the allocation, */
  lemma CellInside(t: Tile, row: nat, k: nat)
    requires t.Valid() && row < t.s && k < t.r
    ensures Cell(t, row, k) < t.Size()
    ensures k / t.pack < t.r / t.pack
  {
    Factors(t);
    DivMod(k, t.pack);
    Associate(t.Across(), t.Packs(), t.pack);
    DivLt(k, t.pack, t.r / t.pack);
    RowIndex(row, k % t.pack, t.s, t.pack);
    RowIndex(k / t.pack, row * t.pack + k % t.pack, t.r / t.pack, t.Plane());
  }

  /** The allocation is no larger than that, but for the padding vector of the last plane, */
  lemma SizeTight(t: Tile)
    requires t.Valid()
    ensures t.Size() == Cell(t, t.s - 1, t.r - 1) + 1 + t.pack
  {
    Factors(t);
    Associate(t.Across(), t.Packs(), t.pack);
    var planes := t.r / t.pack;
    MulLt(0, t.Across(), t.Packs());
    Distribute(planes, 1, t.pack);
    DivModUnique(t.r - 1, t.pack, planes - 1, t.pack - 1);
    Distribute(planes, 1, t.Plane());
    Distribute(t.s, 1, t.pack);
  }

  /** and no two share a cell. */
  lemma CellsDistinct(t: Tile, row: nat, k: nat, row': nat, k': nat)
    requires t.pack > 0 && row < t.s && row' < t.s && Cell(t, row, k) == Cell(t, row', k')
    ensures row == row' && k == k'
  {
    SplitCell(t, row, k);
    SplitCell(t, row', k');
    DivMod(k, t.pack);
    DivMod(k', t.pack);
  }

  lemma SplitCell(t: Tile, row: nat, k: nat)
    requires t.pack > 0 && row < t.s
    ensures t.Plane() > 0 && Cell(t, row, k) / t.Plane() == k / t.pack
    ensures var rest := Cell(t, row, k) % t.Plane(); rest / t.pack == row && rest % t.pack == k % t.pack
  {
    DivMod(k, t.pack);
    RowIndex(row, k % t.pack, t.s, t.pack);
    var rest := row * t.pack + k % t.pack;
    DivModUnique(Cell(t, row, k), t.Plane(), k / t.pack, rest);
    DivModUnique(rest, t.pack, row, k % t.pack);
  }

  /** The vector that an LDS word lies in, and its place there. */
  function VecAt(t: Tile, x: nat): Vec
    requires t.pack > 0 && t.Plane() > 0
  {
    DivMod(x, t.Plane());
    DivMod(x % t.Plane(), t.pack);
    Vec(x % t.Plane() / t.pack, x / t.Plane())
  }

  function PlaceAt(t: Tile, x: nat): nat
    requires t.pack > 0 && t.Plane() > 0
  {
    x % t.Plane() % t.pack
  }

  /** The word is not padding. */
  predicate IsStored(t: Tile, x: nat)
    requires t.pack > 0 && t.Plane() > 0
  {
    InTile(t, VecAt(t, x))
  }

  /** A stored word is the address at which its owner stores the vector's element of that place. */
  lemma StoredWord(t: Tile, x: nat)
    requires t.Valid() && t.Packs() > 0 && t.Plane() > 0 && IsStored(t, x)
    ensures var v := VecAt(t, x); var tid, q := OwnerThread(t, v), OwnerIssue(t, v);
      && tid < t.block && q < t.SstIssues() && PlaceAt(t, x) < t.pack && StoreOffset(t, tid, q) + PlaceAt(t, x) == x
  {
    var v := VecAt(t, x);
    VecToStore(t, v);
    StoreAddress(t, OwnerThread(t, v), OwnerIssue(t, v));
    DivMod(x, t.Plane());
    DivMod(x % t.Plane(), t.pack);
  }

  lemma CellIsAt(t: Tile, row: nat, k: nat)
    requires t.Valid() && row < t.s && k < t.r
    ensures t.Plane() > 0 && VecAt(t, Cell(t, row, k)) == Vec(row, k / t.pack) && PlaceAt(t, Cell(t, row, k)) == k % t.pack
    ensures IsStored(t, Cell(t, row, k))
  {
    SplitCell(t, row, k);
    CellInside(t, row, k);
  }

  // ---------------------------------------------------------------- registers to LDS

  /** The element that `gld_iterator_s_r` loads into register element i of a thread. */
  function GldRow(t: Tile, tid: nat, i: nat): nat
    requires t.Valid()
  {
    DivMod(tid, t.Across());
    DivMod(i, t.align);
    tid / t.Across() + Product(i / t.align, t.Rows())
  }

  function GldCol(t: Tile, tid: nat, i: nat): nat
    requires t.Valid()
  {
    DivMod(i, t.align);
    Product(tid % t.Across(), t.align) + i % t.align
  }

  /** Issue q of the store takes `pack` register elements, and these are the elements of its vector. */
  lemma StoredElements(t: Tile, tid: nat, q: nat, y: nat)
    requires t.Valid() && t.Packs() > 0 && y < t.pack
    ensures var v := StoredVec(t, tid, q); var i := Product(q, t.pack) + y;
      && GldRow(t, tid, i) == v.row && GldCol(t, tid, i) == Product(v.plane, t.pack) + y
      && (q < t.SstIssues() ==> i < Product(t.GldIssues(), t.align))
  {
    Factors(t);
    var i, packs := q * t.pack + y, t.Packs();
    DivMod(q, packs);
    Distribute(q / packs * packs, q % packs, t.pack);
    Associate(q / packs, packs, t.pack);
    RowIndex(q % packs, y, packs, t.pack);
    DivModUnique(i, t.align, q / packs, q % packs * t.pack + y);
    Distribute(tid % t.Across() * packs, q % packs, t.pack);
    Associate(tid % t.Across(), packs, t.pack);
    if q < t.SstIssues() {
      RowIndex(q, y, t.SstIssues(), t.pack);
      Associate(t.s / t.Rows(), packs, t.pack);
    }
  }

  ghost predicate InRegisters<T(!new)>(t: Tile, regs: seq<seq<T>>, tile: (nat, nat) -> T)
    requires t.Valid()
  {
    && |regs| == t.block
    && (forall tid :: 0 <= tid < t.block ==> |regs[tid]| == Product(t.GldIssues(), t.align))
    && forall tid: nat, i: nat :: tid < t.block && i < Product(t.GldIssues(), t.align) ==>
         regs[tid][i] == tile(GldRow(t, tid, i), GldCol(t, tid, i))
  }

  /** The stores before issue q of thread tid, thread by thread. */
  predicate Earlier(t: Tile, v: Vec, tid: nat, q: nat)
    requires t.Valid() && t.Packs() > 0
  {
    OwnerThread(t, v) < tid || (OwnerThread(t, v) == tid && OwnerIssue(t, v) < q)
  }

  ghost predicate Written<T(!new)>(t: Tile, lds: seq<T>, base: nat, tile: (nat, nat) -> T, tid: nat, q: nat)
    requires t.Valid() && t.Packs() > 0 && base + t.Size() <= |lds|
  {
    forall row: nat, k: nat :: row < t.s && k < t.r && Earlier(t, VecOf(t, row, k), tid, q) ==> At(t, lds, base, row, k) == tile(row, k)
  }

  function VecOf(t: Tile, row: nat, k: nat): Vec
    requires t.pack > 0
  {
    DivMod(k, t.pack);
    Vec(row, k / t.pack)
  }

  /** What LDS holds for element (row, k). */
  function At<T>(t: Tile, lds: seq<T>, base: nat, row: nat, k: nat): T
    requires t.Valid() && base + t.Size() <= |lds| && row < t.s && k < t.r
  {
    CellInside(t, row, k);
    lds[base + Cell(t, row, k)]
  }

  /** One vector store. */
  method StoreVector<T>(lds: array<T>, address: nat, data: seq<T>)
    requires address + |data| <= lds.Length
    modifies lds
    ensures lds[..] == old(lds[..address]) + data + old(lds[address + |data|..])
  {
    for y := 0 to |data|
      invariant lds[..] == old(lds[..address]) + data[..y] + old(lds[address + y..])
    {
      lds[address + y] := data[y];
    }
  }

  lemma VectorWritten<T(!new)>(t: Tile, was: seq<T>, lds: seq<T>, base: nat, tile: (nat, nat) -> T, tid: nat, q: nat, data: seq<T>)
    requires t.Valid() && t.Packs() > 0 && tid < t.block && q < t.SstIssues() && |data| == t.pack
    requires base + t.Size() <= |was| && Written(t, was, base, tile, tid, q)
    requires forall y: nat :: y < t.pack ==> data[y] == tile(StoredVec(t, tid, q).row, Product(StoredVec(t, tid, q).plane, t.pack) + y)
    requires var address := base + Address(t, StoredVec(t, tid, q));
      address + t.pack <= |was| && lds == was[..address] + data + was[address + t.pack..]
    ensures Written(t, lds, base, tile, tid, q + 1)
  {
    var v := StoredVec(t, tid, q);
    StoreToVec(t, tid, q);
    Factors(t);
    forall row: nat, k: nat | row < t.s && k < t.r && Earlier(t, VecOf(t, row, k), tid, q + 1)
      ensures At(t, lds, base, row, k) == tile(row, k)
    {
      DivMod(k, t.pack);
      CellInside(t, row, k);
      if VecOf(t, row, k) != v {
        CellApart(t, row, k, v);
        VecToStore(t, VecOf(t, row, k));
        assert At(t, was, base, row, k) == tile(row, k);
      }
    }
  }

  /** A vector's cells belong to no element of another vector. */
  lemma CellApart(t: Tile, row: nat, k: nat, v: Vec)
    requires t.Valid() && row < t.s && InTile(t, v) && VecOf(t, row, k) != v
    ensures !(Address(t, v) <= Cell(t, row, k) < Address(t, v) + t.pack)
  {
    if Address(t, v) <= Cell(t, row, k) < Address(t, v) + t.pack {
      var y := Cell(t, row, k) - Address(t, v);
      DivModUnique(Product(v.plane, t.pack) + y, t.pack, v.plane, y);
      CellsDistinct(t, row, k, v.row, Product(v.plane, t.pack) + y);
    }
  }

  lemma VectorInside(t: Tile, v: Vec)
    requires t.Valid() && InTile(t, v)
    ensures Address(t, v) + t.pack <= t.Size()
  {
    RowIndex(v.row, t.pack - 1, t.s, t.pack);
    RowIndex(v.plane, v.row * t.pack + (t.pack - 1), t.r / t.pack, t.Plane());
  }

  /** The register elements of store issue q. */
  function IssueData<T>(t: Tile, reg: seq<T>, q: nat): (data: seq<T>)
    requires Product(q, t.pack) + t.pack <= |reg|
    ensures |data| == t.pack
  {
    reg[Product(q, t.pack)..Product(q, t.pack) + t.pack]
  }

  lemma IssueElements<T(!new)>(t: Tile, regs: seq<seq<T>>, tile: (nat, nat) -> T, tid: nat, q: nat)
    requires t.Valid() && t.Packs() > 0 && InRegisters(t, regs, tile) && tid < t.block && q < t.SstIssues()
    ensures Product(q, t.pack) + t.pack <= |regs[tid]|
    ensures var data, v := IssueData(t, regs[tid], q), StoredVec(t, tid, q);
      forall y: nat :: y < t.pack ==> data[y] == tile(v.row, Product(v.plane, t.pack) + y)
  {
    StoredElements(t, tid, q, t.pack - 1);
    forall y: nat | y < t.pack
      ensures IssueData(t, regs[tid], q)[y] == tile(StoredVec(t, tid, q).row, Product(StoredVec(t, tid, q).plane, t.pack) + y)
    {
      StoredElements(t, tid, q, y);
      assert IssueData(t, regs[tid], q)[y] == regs[tid][Product(q, t.pack) + y];
    }
  }

  ghost predicate SameOutside<T>(t: Tile, base: nat, was: seq<T>, lds: seq<T>)
    requires t.pack > 0
  {
    |was| == |lds| && forall x :: 0 <= x < |lds| && !(base <= x < base + t.Size()) ==> lds[x] == was[x]
  }

  /** One thread's store of one issue. */
  method StoreIssue<T(!new)>(t: Tile, regs: seq<seq<T>>, ghost tile: (nat, nat) -> T, lds: array<T>, base: nat, tid: nat, q: nat)
    requires t.Valid() && InRegisters(t, regs, tile) && base + t.Size() <= lds.Length
    requires t.Packs() > 0 && tid < t.block && q < t.SstIssues() && Written(t, lds[..], base, tile, tid, q)
    modifies lds
    ensures Written(t, lds[..], base, tile, tid, q + 1) && SameOutside(t, base, old(lds[..]), lds[..])
  {
    StoreToVec(t, tid, q);
    StoreAddress(t, tid, q);
    VectorInside(t, StoredVec(t, tid, q));
    IssueElements(t, regs, tile, tid, q);
    var data := IssueData(t, regs[tid], q);
    StoreVector(lds, base + StoreOffset(t, tid, q), data);
    VectorWritten(t, old(lds[..]), lds[..], base, tile, tid, q, data);
  }

  /** `sst_iterator_r0_s_r1::operator()` in every thread: registers filled by the global loads of a tile leave
      element (row, k) of the tile in its cell, and nothing outside the tile's allocation changes. */
  method StoreTile<T(!new)>(t: Tile, regs: seq<seq<T>>, ghost tile: (nat, nat) -> T, lds: array<T>, base: nat)
    requires t.Valid() && InRegisters(t, regs, tile) && base + t.Size() <= lds.Length
    modifies lds
    ensures forall row: nat, k: nat :: row < t.s && k < t.r ==> At(t, lds[..], base, row, k) == tile(row, k)
    ensures SameOutside(t, base, old(lds[..]), lds[..])
  {
    Factors(t);
    for tid := 0 to t.block
      invariant Written(t, lds[..], base, tile, tid, 0) && SameOutside(t, base, old(lds[..]), lds[..])
    {
      for q := 0 to t.SstIssues()
        invariant Written(t, lds[..], base, tile, tid, q) && SameOutside(t, base, old(lds[..]), lds[..])
      {
        StoreIssue(t, regs, tile, lds, base, tid, q);
      }
      ThreadWritten(t, lds[..], base, tile, tid);
    }
    AllWritten(t, lds[..], base, tile);
  }

  lemma ThreadWritten<T(!new)>(t: Tile, lds: seq<T>, base: nat, tile: (nat, nat) -> T, tid: nat)
    requires t.Valid() && t.Packs() > 0 && tid < t.block && base + t.Size() <= |lds|
    requires Written(t, lds, base, tile, tid, t.SstIssues())
    ensures Written(t, lds, base, tile, tid + 1, 0)
  {
    forall row: nat, k: nat | row < t.s && k < t.r && Earlier(t, VecOf(t, row, k), tid + 1, 0)
      ensures At(t, lds, base, row, k) == tile(row, k)
    {
      CellInside(t, row, k);
      VecToStore(t, VecOf(t, row, k));
    }
  }

  lemma AllWritten<T(!new)>(t: Tile, lds: seq<T>, base: nat, tile: (nat, nat) -> T)
    requires t.Valid() && t.Packs() > 0 && base + t.Size() <= |lds| && Written(t, lds, base, tile, t.block, 0)
    ensures forall row: nat, k: nat :: row < t.s && k < t.r ==> At(t, lds, base, row, k) == tile(row, k)
  {
    forall row: nat, k: nat | row < t.s && k < t.r ensures At(t, lds, base, row, k) == tile(row, k) {
      CellInside(t, row, k);
      VecToStore(t, VecOf(t, row, k));
      assert Earlier(t, VecOf(t, row, k), t.block, 0);
    }
  }
}
