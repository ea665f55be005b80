/** `transpose_lds_kernel`: a tile goes from global memory straight into padded LDS rows, each wave's words side by
    side, and is read back transposed. */
module Transpose {
  import opened Arith

  const BLOCK_SIZE := 256
  const WAVES := 4
  const LDS_STRIDE := 65

  /** ROWS and COLS under the static assertions. */
  datatype Shape = Shape(rows: nat, cols: nat)
  {
    predicate Valid() { rows in {16, 32, 64} && cols in {16, 32, 64} }

    function Issues(): nat { rows * cols / BLOCK_SIZE }

    /** `src_rows_per_wave_per_issue`, also `r1_len`. */
    function PerWave(): nat requires cols > 0 { 64 / cols }

    function SmemSize(): nat { Issues() * WAVES * LDS_STRIDE }
  }

  lemma Shapes(s: Shape)
    requires s.Valid()
    ensures s.cols * s.PerWave() == 64 && BLOCK_SIZE / s.cols == WAVES * s.PerWave() && s.PerWave() > 0
    ensures s.Issues() * (WAVES * s.PerWave()) == s.rows && s.Issues() > 0
    ensures s.Issues() * (BLOCK_SIZE / s.rows) == s.cols && BLOCK_SIZE / s.rows * s.rows == BLOCK_SIZE
  {
  }

  // ---------------------------------------------------------------- index arithmetic

  /** The row and column that a thread loads in an issue, and the LDS word the load goes to: m0 plus the lane. */
  function SrcRow(s: Shape, tid: nat, i: nat): nat
    requires s.Valid()
  {
    var row0 := tid / s.cols;
    row0 / s.PerWave() + row0 % s.PerWave() * WAVES + i * (BLOCK_SIZE / s.cols)
  }

  function SrcCol(s: Shape, tid: nat): nat
    requires s.Valid()
  {
    tid % s.cols
  }

  function LoadWord(tid: nat, i: nat): nat {
    tid / 64 * LDS_STRIDE + i * (WAVES * LDS_STRIDE) + tid % 64
  }

  /** `lds_idx` for source row `row` and column `col`. */
  function LdsIndex(s: Shape, row: nat, col: nat): nat
    requires s.Valid()
  {
    var r2, r1, r0 := row % WAVES, row / WAVES % s.PerWave(), row / (WAVES * s.PerWave());
    (r0 * WAVES + r2) * LDS_STRIDE + r1 * s.cols + col
  }

  /** The row and column that a thread stores in an issue. */
  function DstRow(s: Shape, tid: nat): nat requires s.Valid() { tid % s.rows }

  function DstCol(s: Shape, tid: nat, i: nat): nat requires s.Valid() { tid / s.rows + i * (BLOCK_SIZE / s.rows) }

  /** A thread's place in its wave: the row within the wave's rows and the column. */
  lemma ThreadParts(cols: nat, p: nat, wave: nat, lane: nat)
    requires cols > 0 && p > 0 && cols * p == 64 && lane < 64
    ensures var sub, tid := lane / cols, wave * 64 + lane;
      && 0 <= sub < p && lane == sub * cols + tid % cols && 0 <= tid % cols < cols
      && tid / cols == wave * p + sub && tid / cols / p == wave && tid / cols % p == sub
  {
    var sub := lane / cols;
    DivMod(lane, cols);
    DivLt(lane, cols, p);
    var high := wave * p;
    assert high * cols == wave * 64 by { Associate(wave, p, cols); }
    Distribute(high, sub, cols);
    DivModUnique(wave * 64 + lane, cols, high + sub, lane % cols);
    DivModUnique(high + sub, p, wave, sub);
  }

  /** What a load writes is where the store phase looks for that element. */
  lemma LoadPlace(s: Shape, tid: nat, i: nat)
    requires s.Valid() && tid < BLOCK_SIZE && i < s.Issues()
    ensures SrcRow(s, tid, i) < s.rows && SrcCol(s, tid) < s.cols
    ensures LoadWord(tid, i) == LdsIndex(s, SrcRow(s, tid, i), SrcCol(s, tid)) < s.SmemSize()
  {
    Shapes(s);
    ThreadParts(s.cols, s.PerWave(), tid / 64, tid % 64);
    var p, sub, wave := s.PerWave(), tid % 64 / s.cols, tid / 64;
    var row := SrcRow(s, tid, i);
    assert row == wave + sub * 4 + i * (4 * p);
    RowOfGroup(s.Issues(), p, i, sub, wave, row);
    MulLe(i + 1, s.Issues(), WAVES * LDS_STRIDE);
  }

  lemma RowOfGroup(issues: nat, p: nat, i: nat, sub: nat, wave: nat, row: nat)
    requires p > 0 && i < issues && sub < p && wave < 4 && row == wave + sub * 4 + i * (4 * p)
    ensures 0 <= row < issues * (4 * p)
    ensures row % 4 == wave && row / 4 % p == sub && row / (4 * p) == i
  {
    RowIndex(i, wave + sub * 4, issues, 4 * p);
    DivModUnique(row, 4 * p, i, wave + sub * 4);
    Associate(i, 4, p);
    assert row / 4 == i * p + sub;
    DivModUnique(i * p + sub, p, i, sub);
  }

  /** The thread and issue that load an element. */
  function LoadThread(s: Shape, row: nat, col: nat): nat requires s.Valid() {
    row % WAVES * 64 + row / WAVES % s.PerWave() * s.cols + col
  }

  function LoadIssue(s: Shape, row: nat): nat requires s.Valid() { row / (WAVES * s.PerWave()) }

  lemma LoadedOnce(s: Shape, row: nat, col: nat)
    requires s.Valid() && row < s.rows && col < s.cols
    ensures var tid, i := LoadThread(s, row, col), LoadIssue(s, row);
      tid < BLOCK_SIZE && i < s.Issues() && SrcRow(s, tid, i) == row && SrcCol(s, tid) == col
  {
    Shapes(s);
    DivLt(row, 4 * s.PerWave(), s.Issues());
    ThreadOf(s.cols, s.PerWave(), row, col);
    RowParts(row, s.PerWave());
  }

  lemma ThreadOf(cols: nat, p: nat, row: nat, col: nat)
    requires cols > 0 && p > 0 && cols * p == 64 && col < cols
    ensures var tid := row % 4 * 64 + row / 4 % p * cols + col;
      0 <= tid < BLOCK_SIZE && tid % cols == col && 0 <= tid / cols && tid / cols / p == row % 4 && tid / cols % p == row / 4 % p
  {
    DivMod(row / 4, p);
    ThreadFrom(cols, p, row % 4, row / 4 % p, col);
  }

  lemma ThreadFrom(cols: nat, p: nat, wave: nat, sub: nat, col: nat)
    requires cols > 0 && p > 0 && cols * p == 64 && col < cols && sub < p && wave < 4
    ensures var tid := wave * 64 + sub * cols + col;
      0 <= tid < BLOCK_SIZE && tid % cols == col && 0 <= tid / cols && tid / cols / p == wave && tid / cols % p == sub
  {
    RowIndex(sub, col, p, cols);
    var high := wave * p;
    assert high * cols == wave * 64 by { Associate(wave, p, cols); }
    Distribute(high, sub, cols);
    DivModUnique(wave * 64 + sub * cols + col, cols, high + sub, col);
    DivModUnique(high + sub, p, wave, sub);
  }

  lemma RowParts(row: nat, p: nat)
    requires p > 0
    ensures row % 4 + row / 4 % p * 4 + row / (4 * p) * (4 * p) == row
  {
    var q := row / 4;
    DivMod(q, p);
    Associate(q / p, 4, p);
    DivModUnique(row, 4 * p, q / p, row % 4 + q % p * 4);
  }

  /** No two elements share an LDS word. */
  lemma WordsDistinct(s: Shape, row: nat, col: nat, row': nat, col': nat)
    requires s.Valid() && row < s.rows && col < s.cols && row' < s.rows && col' < s.cols
    requires LdsIndex(s, row, col) == LdsIndex(s, row', col')
    ensures row == row' && col == col'
  {
    WordParts(s, row, col);
    WordParts(s, row', col');
  }

  lemma WordParts(s: Shape, row: nat, col: nat)
    requires s.Valid() && row < s.rows && col < s.cols
    ensures var x := LdsIndex(s, row, col); var line, rest := x / LDS_STRIDE, x % LDS_STRIDE;
      && col == rest % s.cols && row == line % 4 + rest / s.cols * 4 + line / 4 * (4 * s.PerWave())
      && x < s.SmemSize()
  {
    Shapes(s);
    var r2, r1, r0 := RowSplit(s, row, col);
    WordOf(s, r2, r1, r0, row, col, LdsIndex(s, row, col));
  }

  lemma RowSplit(s: Shape, row: nat, col: nat) returns (r2: nat, r1: nat, r0: nat)
    requires s.Valid() && row < s.rows
    ensures r2 < 4 && r1 < s.PerWave() && r0 < s.Issues() && row == r2 + r1 * 4 + r0 * (4 * s.PerWave())
    ensures LdsIndex(s, row, col) == (r0 * 4 + r2) * LDS_STRIDE + r1 * s.cols + col
  {
    Shapes(s);
    r2, r1, r0 := row % 4, row / 4 % s.PerWave(), row / (4 * s.PerWave());
    RowParts(row, s.PerWave());
    DivLt(row, 4 * s.PerWave(), s.Issues());
  }

  /** The same with the parts of the row named. */
  lemma WordOf(s: Shape, r2: nat, r1: nat, r0: nat, row: nat, col: nat, x: nat)
    requires s.Valid() && s.cols * s.PerWave() == 64 && r2 < 4 && r1 < s.PerWave() && r0 < s.Issues() && col < s.cols
    requires row == r2 + r1 * 4 + r0 * (4 * s.PerWave()) && x == (r0 * 4 + r2) * LDS_STRIDE + r1 * s.cols + col
    ensures var line, rest := x / LDS_STRIDE, x % LDS_STRIDE;
      col == rest % s.cols && row == line % 4 + rest / s.cols * 4 + line / 4 * (4 * s.PerWave()) && x < s.SmemSize()
  {
    LineParts(s.cols, s.PerWave(), r2, r1, r0, col, s.Issues());
    DivModUnique(r0 * 4 + r2, 4, r0, r2);
  }

  lemma LineParts(cols: nat, p: nat, r2: nat, r1: nat, r0: nat, col: nat, issues: nat)
    requires cols > 0 && cols * p == 64 && r2 < 4 && r1 < p && r0 < issues && col < cols
    ensures var x := (r0 * 4 + r2) * LDS_STRIDE + r1 * cols + col;
      && 0 <= x < issues * WAVES * LDS_STRIDE && x / LDS_STRIDE == r0 * 4 + r2 && x % LDS_STRIDE == r1 * cols + col
      && (r1 * cols + col) % cols == col && (r1 * cols + col) / cols == r1
  {
    RowIndex(r1, col, p, cols);
    DivModUnique(r1 * cols + col, cols, r1, col);
  }

  /** The thread and issue that store an element. */
  function StoreThread(s: Shape, row: nat, col: nat): nat requires s.Valid() { col % (BLOCK_SIZE / s.rows) * s.rows + row }

  function StoreIssue(s: Shape, col: nat): nat requires s.Valid() { col / (BLOCK_SIZE / s.rows) }

  /** Every element is stored by exactly one thread and issue. */
  lemma StoredOnce(s: Shape, row: nat, col: nat, tid: nat, i: nat)
    requires s.Valid() && row < s.rows && col < s.cols && tid < BLOCK_SIZE && i < s.Issues()
    ensures DstRow(s, tid) == row && DstCol(s, tid, i) == col <==> tid == StoreThread(s, row, col) && i == StoreIssue(s, col)
  {
    Shapes(s);
    OneStore(s.rows, BLOCK_SIZE / s.rows, row, col, tid, i);
  }

  lemma OneStore(rows: nat, d: nat, row: nat, col: nat, tid: nat, i: nat)
    requires rows > 0 && d > 0 && d * rows == BLOCK_SIZE && row < rows && tid < BLOCK_SIZE
    ensures tid % rows == row && tid / rows + i * d == col <==> tid == col % d * rows + row && i == col / d
  {
    DivMod(tid, rows);
    DivMod(col, d);
    DivLt(tid, rows, d);
    if tid % rows == row && tid / rows + i * d == col {
      DivModUnique(col, d, i, tid / rows);
    }
    if tid == col % d * rows + row {
      DivModUnique(tid, rows, col % d, row);
    }
  }

  lemma StorePlace(s: Shape, tid: nat, i: nat)
    requires s.Valid() && tid < BLOCK_SIZE && i < s.Issues()
    ensures DstRow(s, tid) < s.rows && DstCol(s, tid, i) < s.cols
  {
    Shapes(s);
    DivLt(tid, s.rows, BLOCK_SIZE / s.rows);
    RowIndex(i, tid / s.rows, s.Issues(), BLOCK_SIZE / s.rows);
  }

  function DstAddress(row: nat, col: nat, stride: nat): nat { MulLe(0, col, stride); col * stride + row }

  /** Destination addresses are all different exactly when the stride leaves room for a column of the source. */
  lemma AddressesDistinct(s: Shape, stride: nat)
    requires s.Valid()
    ensures stride >= s.rows <==>
      forall row: nat, col: nat, row': nat, col': nat ::
        row < s.rows && col < s.cols && row' < s.rows && col' < s.cols && DstAddress(row, col, stride) == DstAddress(row', col', stride)
        ==> row == row' && col == col'
  {
    if stride >= s.rows {
      forall row: nat, col: nat, row': nat, col': nat |
        row < s.rows && col < s.cols && row' < s.rows && col' < s.cols && DstAddress(row, col, stride) == DstAddress(row', col', stride)
        ensures row == row' && col == col'
      {
        DivModUnique(DstAddress(row, col, stride), stride, col, row);
        DivModUnique(DstAddress(row', col', stride), stride, col', row');
      }
    } else {
      assert DstAddress(stride, 0, stride) == DstAddress(0, 1, stride);
    }
  }

  // ---------------------------------------------------------------- the kernel

  /** An LDS word, which starts out unwritten. */
  datatype Cell<T> = Unwritten | Word(value: T)

  function SrcAddress(row: nat, col: nat, stride: nat): nat { MulLe(0, row, stride); row * stride + col }

  /** The tile lies in the source, and its transpose in the destination. */
  ghost predicate SrcFits(s: Shape, stride: nat, length: nat) {
    forall row: nat, col: nat :: row < s.rows && col < s.cols ==> SrcAddress(row, col, stride) < length
  }

  ghost predicate DstFits(s: Shape, stride: nat, length: nat) {
    forall row: nat, col: nat :: row < s.rows && col < s.cols ==> DstAddress(row, col, stride) < length
  }

  ghost predicate Earlier(i: nat, tid: nat, i': nat, tid': nat) { i < i' || (i == i' && tid < tid') }

  /** LDS holds the elements loaded before thread tid of issue i. */
  ghost predicate Loaded<T(!new)>(s: Shape, smem: seq<Cell<T>>, src: seq<T>, stride: nat, i: nat, tid: nat)
    requires s.Valid() && |smem| == s.SmemSize() && SrcFits(s, stride, |src|)
  {
    forall row: nat, col: nat :: row < s.rows && col < s.cols && Earlier(LoadIssue(s, row), LoadThread(s, row, col), i, tid) ==>
      LdsIndex(s, row, col) < |smem| && smem[LdsIndex(s, row, col)] == Word(src[SrcAddress(row, col, stride)])
  }

  lemma LoadNext<T(!new)>(s: Shape, smem: seq<Cell<T>>, src: seq<T>, stride: nat, i: nat, tid: nat)
    requires s.Valid() && |smem| == s.SmemSize() && SrcFits(s, stride, |src|)
    requires tid < BLOCK_SIZE && i < s.Issues() && Loaded(s, smem, src, stride, i, tid)
    ensures LoadWord(tid, i) < |smem| && SrcAddress(SrcRow(s, tid, i), SrcCol(s, tid), stride) < |src|
    ensures Loaded(s, smem[LoadWord(tid, i) := Word(src[SrcAddress(SrcRow(s, tid, i), SrcCol(s, tid), stride)])],
                   src, stride, i, tid + 1)
  {
    LoadPlace(s, tid, i);
    var r, c := SrcRow(s, tid, i), SrcCol(s, tid);
    var smem' := smem[LoadWord(tid, i) := Word(src[SrcAddress(r, c, stride)])];
    forall row: nat, col: nat | row < s.rows && col < s.cols && Earlier(LoadIssue(s, row), LoadThread(s, row, col), i, tid + 1)
      ensures LdsIndex(s, row, col) < |smem'| && smem'[LdsIndex(s, row, col)] == Word(src[SrcAddress(row, col, stride)])
    {
      LoadedOnce(s, row, col);
      if row != r || col != c {
        assert Earlier(LoadIssue(s, row), LoadThread(s, row, col), i, tid);
        if LdsIndex(s, row, col) == LoadWord(tid, i) { WordsDistinct(s, row, col, r, c); }
      }
    }
  }

  lemma IssueDone<T(!new)>(s: Shape, smem: seq<Cell<T>>, src: seq<T>, stride: nat, i: nat)
    requires s.Valid() && |smem| == s.SmemSize() && SrcFits(s, stride, |src|)
    requires Loaded(s, smem, src, stride, i, BLOCK_SIZE)
    ensures Loaded(s, smem, src, stride, i + 1, 0)
  {
    forall row: nat, col: nat | row < s.rows && col < s.cols && Earlier(LoadIssue(s, row), LoadThread(s, row, col), i + 1, 0)
      ensures LdsIndex(s, row, col) < |smem| && smem[LdsIndex(s, row, col)] == Word(src[SrcAddress(row, col, stride)])
    {
      LoadedOnce(s, row, col);
      assert Earlier(LoadIssue(s, row), LoadThread(s, row, col), i, BLOCK_SIZE);
    }
  }

  /** `async_gld_dword` of one lane: `m0` is the LDS base of its wave. */
  method LoadOne<T(!new)>(s: Shape, src: array<T>, srcStride: nat, smem: array<Cell<T>>, i: nat, tid: nat)
    requires s.Valid() && smem.Length == s.SmemSize() && SrcFits(s, srcStride, src.Length) && (src as object) != smem
    requires tid < BLOCK_SIZE && i < s.Issues() && Loaded(s, smem[..], src[..], srcStride, i, tid)
    modifies smem
    ensures Loaded(s, smem[..], src[..], srcStride, i, tid + 1)
  {
    LoadNext(s, smem[..], src[..], srcStride, i, tid);
    var m0 := tid / 64 * LDS_STRIDE + i * (WAVES * LDS_STRIDE);
    var word := Word(src[SrcAddress(SrcRow(s, tid, i), SrcCol(s, tid), srcStride)]);
    assert m0 + tid % 64 == LoadWord(tid, i);
    smem[m0 + tid % 64] := word;
    assert smem[..] == old(smem[..])[LoadWord(tid, i) := word];
  }

  /** The asynchronous loads. */
  method LoadPhase<T(!new)>(s: Shape, src: array<T>, srcStride: nat, smem: array<Cell<T>>)
    requires s.Valid() && smem.Length == s.SmemSize() && SrcFits(s, srcStride, src.Length) && (src as object) != smem
    modifies smem
    ensures Loaded(s, smem[..], src[..], srcStride, s.Issues(), 0)
  {
    for i := 0 to s.Issues()
      invariant Loaded(s, smem[..], src[..], srcStride, i, 0)
    {
      for tid := 0 to BLOCK_SIZE
        invariant Loaded(s, smem[..], src[..], srcStride, i, tid)
      {
        LoadOne(s, src, srcStride, smem, i, tid);
      }
      IssueDone(s, smem[..], src[..], srcStride, i);
    }
  }

  /** The destination holds the elements stored before issue i of thread tid, each at its transposed place. */
  ghost predicate Stored<T(!new)>(s: Shape, dst: seq<T>, dstStride: nat, src: seq<T>, srcStride: nat, tid: nat, i: nat)
    requires s.Valid() && SrcFits(s, srcStride, |src|) && DstFits(s, dstStride, |dst|)
  {
    forall row: nat, col: nat :: row < s.rows && col < s.cols && Earlier(StoreThread(s, row, col), StoreIssue(s, col), tid, i) ==>
      dst[DstAddress(row, col, dstStride)] == src[SrcAddress(row, col, srcStride)]
  }

  lemma StoreNext<T(!new)>(s: Shape, dst: seq<T>, dstStride: nat, src: seq<T>, srcStride: nat, tid: nat, i: nat, value: T)
    requires s.Valid() && SrcFits(s, srcStride, |src|) && DstFits(s, dstStride, |dst|) && dstStride >= s.rows
    requires tid < BLOCK_SIZE && i < s.Issues() && Stored(s, dst, dstStride, src, srcStride, tid, i)
    requires DstRow(s, tid) < s.rows && DstCol(s, tid, i) < s.cols
    requires value == src[SrcAddress(DstRow(s, tid), DstCol(s, tid, i), srcStride)]
    ensures Stored(s, dst[DstAddress(DstRow(s, tid), DstCol(s, tid, i), dstStride) := value], dstStride, src, srcStride, tid, i + 1)
  {
    var r, c := DstRow(s, tid), DstCol(s, tid, i);
    var dst' := dst[DstAddress(r, c, dstStride) := value];
    AddressesDistinct(s, dstStride);
    forall row: nat, col: nat | row < s.rows && col < s.cols && Earlier(StoreThread(s, row, col), StoreIssue(s, col), tid, i + 1)
      ensures dst'[DstAddress(row, col, dstStride)] == src[SrcAddress(row, col, srcStride)]
    {
      StoredOnce(s, row, col, tid, i);
    }
  }

  lemma StoresDone<T(!new)>(s: Shape, dst: seq<T>, dstStride: nat, src: seq<T>, srcStride: nat, tid: nat)
    requires s.Valid() && SrcFits(s, srcStride, |src|) && DstFits(s, dstStride, |dst|)
    requires Stored(s, dst, dstStride, src, srcStride, tid, s.Issues())
    ensures Stored(s, dst, dstStride, src, srcStride, tid + 1, 0)
  {
    forall row: nat, col: nat | row < s.rows && col < s.cols && Earlier(StoreThread(s, row, col), StoreIssue(s, col), tid + 1, 0)
      ensures dst[DstAddress(row, col, dstStride)] == src[SrcAddress(row, col, srcStride)]
    {
      StoreBounds(s, row, col);
      assert Earlier(StoreThread(s, row, col), StoreIssue(s, col), tid, s.Issues());
    }
  }

  lemma StoreBounds(s: Shape, row: nat, col: nat)
    requires s.Valid() && row < s.rows && col < s.cols
    ensures StoreThread(s, row, col) < BLOCK_SIZE && StoreIssue(s, col) < s.Issues()
  {
    Shapes(s);
    DivMod(col, BLOCK_SIZE / s.rows);
    DivLt(col, BLOCK_SIZE / s.rows, s.Issues());
    RowIndex(col % (BLOCK_SIZE / s.rows), row, BLOCK_SIZE / s.rows, s.rows);
  }

  /** Only LDS words that the load phase wrote are read. */
  lemma ReadsWritten<T(!new)>(s: Shape, smem: seq<Cell<T>>, src: seq<T>, stride: nat, tid: nat, i: nat)
    requires s.Valid() && |smem| == s.SmemSize() && SrcFits(s, stride, |src|) && Loaded(s, smem, src, stride, s.Issues(), 0)
    requires tid < BLOCK_SIZE && i < s.Issues()
    ensures var row, col := DstRow(s, tid), DstCol(s, tid, i);
      && row < s.rows && col < s.cols && LdsIndex(s, row, col) < |smem|
      && smem[LdsIndex(s, row, col)] == Word(src[SrcAddress(row, col, stride)])
  {
    StorePlace(s, tid, i);
    var row, col := DstRow(s, tid), DstCol(s, tid, i);
    LoadedOnce(s, row, col);
    assert Earlier(LoadIssue(s, row), LoadThread(s, row, col), s.Issues(), 0);
  }

  /** Some element's destination. */
  ghost predicate Target(s: Shape, stride: nat, x: int) {
    exists row: nat, col: nat :: row < s.rows && col < s.cols && x == DstAddress(row, col, stride)
  }

  ghost predicate OthersKept<T>(s: Shape, stride: nat, was: seq<T>, now: seq<T>) {
    |was| == |now| && forall x :: 0 <= x < |now| && !Target(s, stride, x) ==> now[x] == was[x]
  }

  /** The threads' copies from LDS. */
  method StorePhase<T(!new)>(s: Shape, dst: array<T>, dstStride: nat, smem: array<Cell<T>>, ghost src: seq<T>, ghost srcStride: nat)
    requires s.Valid() && smem.Length == s.SmemSize() && SrcFits(s, srcStride, |src|) && DstFits(s, dstStride, dst.Length)
    requires (dst as object) != smem && Loaded(s, smem[..], src, srcStride, s.Issues(), 0)
    modifies dst
    ensures dstStride >= s.rows ==> Stored(s, dst[..], dstStride, src, srcStride, BLOCK_SIZE, 0)
    ensures OthersKept(s, dstStride, old(dst[..]), dst[..])
  {
    for tid := 0 to BLOCK_SIZE
      invariant dstStride >= s.rows ==> Stored(s, dst[..], dstStride, src, srcStride, tid, 0)
      invariant OthersKept(s, dstStride, old(dst[..]), dst[..])
    {
      for i := 0 to s.Issues()
        invariant dstStride >= s.rows ==> Stored(s, dst[..], dstStride, src, srcStride, tid, i)
        invariant OthersKept(s, dstStride, old(dst[..]), dst[..])
      {
        ReadsWritten(s, smem[..], src, srcStride, tid, i);
        var row, col := DstRow(s, tid), DstCol(s, tid, i);
        var tmp := smem[LdsIndex(s, row, col)].value;
        if dstStride >= s.rows { StoreNext(s, dst[..], dstStride, src, srcStride, tid, i, tmp); }
        assert Target(s, dstStride, DstAddress(row, col, dstStride));
        dst[DstAddress(row, col, dstStride)] := tmp;
      }
      if dstStride >= s.rows { StoresDone(s, dst[..], dstStride, src, srcStride, tid); }
    }
  }

  /** `transpose_lds_kernel`. */
  method TransposeLds<T(!new)>(s: Shape, dst: array<T>, dstStride: nat, src: array<T>, srcStride: nat)
    requires s.Valid() && SrcFits(s, srcStride, src.Length) && DstFits(s, dstStride, dst.Length) && src != dst
    modifies dst
    ensures dstStride >= s.rows ==> forall row: nat, col: nat :: row < s.rows && col < s.cols ==>
      Transposed(dst[..], dstStride, src[..], srcStride, row, col)
    ensures Untouched(s, dstStride, old(dst[..]), dst[..])
  {
    var smem := new Cell<T>[s.SmemSize()](_ => Unwritten);
    LoadPhase(s, src, srcStride, smem);
    StorePhase(s, dst, dstStride, smem, src[..], srcStride);
    forall row: nat, col: nat | dstStride >= s.rows && row < s.rows && col < s.cols
      ensures Transposed(dst[..], dstStride, src[..], srcStride, row, col)
    {
      StoreBounds(s, row, col);
      assert Earlier(StoreThread(s, row, col), StoreIssue(s, col), BLOCK_SIZE, 0);
      assert SrcAddress(row, col, srcStride) < src.Length && DstAddress(row, col, dstStride) < dst.Length;
    }
    KeptUntouched(s, dstStride, old(dst[..]), dst[..]);
  }

  /** Element (row, col) of the source is element (col, row) of the destination. */
  predicate Transposed<T(==)>(dst: seq<T>, dstStride: nat, src: seq<T>, srcStride: nat, row: nat, col: nat) {
    0 <= row * srcStride + col < |src| && 0 <= col * dstStride + row < |dst| && dst[col * dstStride + row] == src[row * srcStride + col]
  }

  predicate IsPlace(x: int, row: nat, col: nat, stride: nat) { x == col * stride + row }

  /** Words that are no element of the transposed tile are as before. */
  ghost predicate Untouched<T>(s: Shape, stride: nat, was: seq<T>, now: seq<T>) {
    && |was| == |now|
    && forall x :: 0 <= x < |now| && (forall row: nat, col: nat :: row < s.rows && col < s.cols ==> !IsPlace(x, row, col, stride)) ==>
         now[x] == was[x]
  }

  lemma KeptUntouched<T>(s: Shape, stride: nat, was: seq<T>, now: seq<T>)
    requires OthersKept(s, stride, was, now)
    ensures Untouched(s, stride, was, now)
  {
    forall x | 0 <= x < |now| && (forall row: nat, col: nat :: row < s.rows && col < s.cols ==> !IsPlace(x, row, col, stride))
      ensures now[x] == was[x]
    {
      if Target(s, stride, x) {
        var row: nat, col: nat :| row < s.rows && col < s.cols && x == DstAddress(row, col, stride);
        assert IsPlace(x, row, col, stride);
      }
    }
  }

  /** The last element lies in the last word but one: one word of padding ends each LDS row. */
  lemma LastWord(s: Shape)
    requires s.Valid()
    ensures LdsIndex(s, s.rows - 1, s.cols - 1) == s.SmemSize() - 2
  {
  }
}
