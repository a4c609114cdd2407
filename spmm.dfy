/**
 * Block-sparse x dense multiplication: the gather-multiply-scatter software
 * path, its "dense_sparse" mode reduced to "sparse_dense" by transposing,
 * the validation and attribute arithmetic done before the accelerator
 * custom op is dispatched, and the convenience wrappers built on them.
 */
module Spmm {
  import opened Dense
  import opened BlockCoo
  import opened Results

  datatype SpmmError =
    | NotCoo
    | BadMode(mode: string)
    | NotCoalesced
    | SizeMismatch(blocksIn: nat, blockSizeIn: nat, elementsIn: nat)
    | NotBlock2D(sparseDim: nat, denseDim: nat)
    | NonSquareBlocks(br: nat, bc: nat)
    | DenseNot2D(rank: nat)

  const SparseDense: string := "sparse_dense"
  const DenseSparse: string := "dense_sparse"

  /** 1. Gather: for each stored block, the block_size_in x batch slice of rhs at its column block. */
  function Gather(lhs: BlockCoo, rhs: Matrix): (inputs: seq<Matrix>)
    ensures |inputs| == |lhs.entries|
    ensures forall k :: 0 <= k < |inputs| ==> Shaped(inputs[k], lhs.bc, rhs.cols)
  {
    seq(|lhs.entries|, k requires 0 <= k < |lhs.entries| =>
      Build(lhs.bc, rhs.cols, (a, b) => Get(rhs, lhs.entries[k].col * lhs.bc + a, b)))
  }

  /** 2. Multiply: each stored tile times its gathered slice. */
  function Products(entries: seq<Entry>, inputs: seq<Matrix>): (p: seq<Matrix>)
    requires |inputs| == |entries|
    requires forall k :: 0 <= k < |entries| ==> entries[k].tile.cols == inputs[k].rows
    ensures |p| == |entries|
  {
    seq(|entries|, k requires 0 <= k < |entries| => MatMul(entries[k].tile, inputs[k]))
  }

  function RowIndices(entries: seq<Entry>): (idx: seq<nat>)
    ensures |idx| == |entries|
    ensures forall k :: 0 <= k < |entries| ==> idx[k] == entries[k].row
  {
    seq(|entries|, k requires 0 <= k < |entries| => entries[k].row)
  }

  /**
   * 3. scatter_add along dimension 0 into a fresh accumulator: for k in
   * order, src[k] is added into acc[index[k]].
   */
  function ScatterAdd(acc: seq<Matrix>, index: seq<nat>, src: seq<Matrix>): (r: seq<Matrix>)
    requires |index| == |src|
    requires forall k :: 0 <= k < |index| ==> index[k] < |acc|
    ensures |r| == |acc|
  {
    if src == [] then acc
    else
      var n := |src| - 1;
      var prev := ScatterAdd(acc, index[..n], src[..n]);
      prev[index[n] := Add(prev[index[n]], src[n])]
  }

  /** Element (a, b) of the k-th source tile when it goes to slot r, else 0. */
  function ScatterTerm(index: seq<nat>, src: seq<Matrix>, k: int, r: int, a: int, b: int): int {
    if 0 <= k < |index| && k < |src| && index[k] == r then Get(src[k], a, b) else 0
  }

  /** What scatter_add computes: every slot gets the sum of the tiles sent to it. */
  lemma {:induction false} ScatterAddSpec(acc: seq<Matrix>, index: seq<nat>, src: seq<Matrix>, rows: nat, cols: nat, r: nat, a: int, b: int)
    requires |index| == |src|
    requires forall k :: 0 <= k < |index| ==> index[k] < |acc|
    requires forall k :: 0 <= k < |acc| ==> Shaped(acc[k], rows, cols)
    requires forall k :: 0 <= k < |src| ==> Shaped(src[k], rows, cols)
    requires r < |acc|
    ensures Get(ScatterAdd(acc, index, src)[r], a, b) == Get(acc[r], a, b) + Sum(|src|, k => ScatterTerm(index, src, k, r, a, b))
  {
    if src != [] {
      var n := |src| - 1;
      var f := k => ScatterTerm(index, src, k, r, a, b);
      ScatterAddSpec(acc, index[..n], src[..n], rows, cols, r, a, b);
      ScatterAddShapes(acc, index[..n], src[..n], rows, cols);
      var prev := ScatterAdd(acc, index[..n], src[..n]);
      SumExt(n, k => ScatterTerm(index[..n], src[..n], k, r, a, b), f);
      assert Get(prev[r], a, b) == Get(acc[r], a, b) + Sum(n, f);
      if index[n] == r {
        GetAdd(prev[r], src[n], a, b);
      }
      assert Sum(|src|, f) == Sum(n, f) + f(n);
    }
  }

  /** scatter_add keeps every slot's shape. */
  lemma {:induction false} ScatterAddShapes(acc: seq<Matrix>, index: seq<nat>, src: seq<Matrix>, rows: nat, cols: nat)
    requires |index| == |src|
    requires forall k :: 0 <= k < |index| ==> index[k] < |acc|
    requires forall k :: 0 <= k < |acc| ==> Shaped(acc[k], rows, cols)
    requires forall k :: 0 <= k < |src| ==> Shaped(src[k], rows, cols)
    ensures forall k :: 0 <= k < |acc| ==> Shaped(ScatterAdd(acc, index, src)[k], rows, cols)
  {
    if src != [] {
      var n := |src| - 1;
      ScatterAddShapes(acc, index[..n], src[..n], rows, cols);
    }
  }

  /** 4. view(elements_out, batch) of the (blocks_out, block_size_out, batch) accumulator. */
  function View(acc: seq<Matrix>, blockSize: nat, batch: nat): (out: Matrix)
    ensures Shaped(out, |acc| * blockSize, batch)
  {
    Build(|acc| * blockSize, batch, (i, b) =>
      if blockSize == 0 || !(0 <= i / blockSize < |acc|) then 0 else Get(acc[i / blockSize], i % blockSize, b))
  }

  /** Steps 1 to 3: the (blocks_out, block_size_out, batch) accumulator after scatter_add. */
  function Accumulate(lhs: BlockCoo, rhs: Matrix): (acc: seq<Matrix>)
    requires Valid(lhs)
    ensures |acc| == lhs.rows
  {
    var inputs := Gather(lhs, rhs);
    var products := Products(lhs.entries, inputs);
    var zeros := seq(lhs.rows, _ => Zeros(lhs.br, rhs.cols));
    ScatterAdd(zeros, RowIndices(lhs.entries), products)
  }

  /** The gather-multiply-scatter product lhs @ rhs, once the operands are known to match. */
  function GatherMultiplyScatter(lhs: BlockCoo, rhs: Matrix): (out: Matrix)
    requires Valid(lhs)
  {
    View(Accumulate(lhs, rhs), lhs.br, rhs.cols)
  }

  /** Slot r of the accumulator holds the sum of the products of the blocks in block row r. */
  lemma AccumulateAt(lhs: BlockCoo, rhs: Matrix, r: nat, a: int, b: int)
    requires Valid(lhs) && Wf(rhs) && r < lhs.rows
    ensures Get(Accumulate(lhs, rhs)[r], a, b)
      == Sum(|lhs.entries|, k => ScatterTerm(RowIndices(lhs.entries), Products(lhs.entries, Gather(lhs, rhs)), k, r, a, b))
  {
    var products := Products(lhs.entries, Gather(lhs, rhs));
    var zeros := seq(lhs.rows, _ => Zeros(lhs.br, rhs.cols));
    forall k | 0 <= k < |products|
      ensures Shaped(products[k], lhs.br, rhs.cols)
    {
    }
    ScatterAddSpec(zeros, RowIndices(lhs.entries), products, lhs.br, rhs.cols, r, a, b);
    assert Get(zeros[r], a, b) == 0;
  }

  /** The sum over k of block k's part of element (i, b) of lhs @ rhs. */
  function BlockRowTerm(lhs: BlockCoo, rhs: Matrix, k: int, i: int, b: int): int {
    if lhs.br == 0 || !(0 <= k < |lhs.entries|) || lhs.entries[k].row != i / lhs.br then 0
    else Sum(lhs.bc, x => Get(lhs.entries[k].tile, i % lhs.br, x) * Get(rhs, lhs.entries[k].col * lhs.bc + x, b))
  }

  lemma GmsElement(lhs: BlockCoo, rhs: Matrix, i: int, b: int)
    requires Valid(lhs) && Wf(rhs)
    requires 0 <= i < lhs.rows * lhs.br && 0 <= b < rhs.cols
    ensures Get(GatherMultiplyScatter(lhs, rhs), i, b) == Sum(|lhs.entries|, k => BlockRowTerm(lhs, rhs, k, i, b))
  {
    var so := lhs.br;
    var products := Products(lhs.entries, Gather(lhs, rhs));
    var index := RowIndices(lhs.entries);
    ViewAt(Accumulate(lhs, rhs), so, rhs.cols, i, b);
    var r := i / so;
    AccumulateAt(lhs, rhs, r, i % so, b);
    forall k | 0 <= k < |lhs.entries|
      ensures ScatterTerm(index, products, k, r, i % so, b) == BlockRowTerm(lhs, rhs, k, i, b)
    {
      GmsTerm(lhs, rhs, i, b, k);
    }
    SumExt(|lhs.entries|, k => ScatterTerm(index, products, k, r, i % so, b), k => BlockRowTerm(lhs, rhs, k, i, b));
  }

  /** Entry k's contribution to slot i / br of the accumulator is its block-row term. */
  lemma GmsTerm(lhs: BlockCoo, rhs: Matrix, i: int, b: int, k: nat)
    requires Valid(lhs) && Wf(rhs)
    requires 0 <= i < lhs.rows * lhs.br && 0 <= b < rhs.cols && k < |lhs.entries|
    ensures var products := Products(lhs.entries, Gather(lhs, rhs));
      ScatterTerm(RowIndices(lhs.entries), products, k, i / lhs.br, i % lhs.br, b) == BlockRowTerm(lhs, rhs, k, i, b)
  {
    var e, so, si := lhs.entries[k], lhs.br, lhs.bc;
    var inputs := Gather(lhs, rhs);
    if e.row == i / so {
      SumExt(si, x => Get(e.tile, i % so, x) * Get(inputs[k], x, b),
                 x => Get(e.tile, i % so, x) * Get(rhs, e.col * si + x, b));
    }
  }

  /** Element (i, b) of the view is element (i % B, b) of block i / B. */
  lemma ViewAt(acc: seq<Matrix>, blockSize: nat, batch: nat, i: int, b: int)
    requires 0 <= i < |acc| * blockSize && 0 <= b < batch
    ensures 0 <= i / blockSize < |acc|
    ensures Get(View(acc, blockSize, batch), i, b) == Get(acc[i / blockSize], i % blockSize, b)
  {
    DivBound(i, blockSize, |acc|);
  }

  /** Entry k's part of the product of element (i, j) of to_dense(lhs) with element (j, b) of rhs. */
  function DenseTerm(lhs: BlockCoo, rhs: Matrix, i: int, b: int, j: int, k: int): int {
    if lhs.br == 0 || lhs.bc == 0 then 0
    else EntryValue(lhs.entries, k, i / lhs.br, j / lhs.bc, i % lhs.br, j % lhs.bc) * Get(rhs, j, b)
  }

  /** Element (i, b) of to_dense(lhs) @ rhs as a double sum over columns j and entries k. */
  lemma DenseDoubleSum(lhs: BlockCoo, rhs: Matrix, i: int, b: int, g: (int, int) -> int)
    requires Valid(lhs) && Wf(rhs) && rhs.rows == lhs.cols * lhs.bc
    requires 0 <= i < lhs.rows * lhs.br && 0 <= b < rhs.cols
    requires forall j, k :: g(j, k) == DenseTerm(lhs, rhs, i, b, j, k)
    ensures Get(MatMul(ToDense(lhs), rhs), i, b) == Sum(rhs.rows, j => Sum(|lhs.entries|, k => g(j, k)))
  {
    var s := lhs.entries;
    var d := ToDense(lhs);
    forall j | 0 <= j < rhs.rows
      ensures Get(d, i, j) * Get(rhs, j, b) == Sum(|s|, k => g(j, k))
    {
      DenseColumnTerm(lhs, rhs, i, b, j, k => g(j, k));
    }
    assert Get(MatMul(d, rhs), i, b) == Dot(d, rhs, i, b, rhs.rows);
    SumExt(rhs.rows, k => Get(d, i, k) * Get(rhs, k, b), j => Sum(|s|, k => g(j, k)));
  }

  lemma DenseColumnTerm(lhs: BlockCoo, rhs: Matrix, i: int, b: int, j: int, h: int -> int)
    requires Valid(lhs) && rhs.rows == lhs.cols * lhs.bc
    requires 0 <= i < lhs.rows * lhs.br && 0 <= j < rhs.rows
    requires forall k :: h(k) == DenseTerm(lhs, rhs, i, b, j, k)
    ensures Get(ToDense(lhs), i, j) * Get(rhs, j, b) == Sum(|lhs.entries|, h)
  {
    var s := lhs.entries;
    var so, si := lhs.br, lhs.bc;
    DivBound(i, so, lhs.rows);
    DivBound(j, si, lhs.cols);
    var r, c, a, y := i / so, j / si, i % so, j % si;
    var v := Get(rhs, j, b);
    assert Get(ToDense(lhs), i, j) == BlockSum(s, r, c, a, y);
    BlockSumIndex(s, r, c, a, y);
    forall k
      ensures h(k) == v * EntryValue(s, k, r, c, a, y)
    {
    }
    SumScale(|s|, v, k => EntryValue(s, k, r, c, a, y), h);
  }

  /** Only entry k's own column block contributes to its column sum. */
  lemma DenseEntrySum(lhs: BlockCoo, rhs: Matrix, i: int, b: int, k: nat, h: int -> int)
    requires Valid(lhs) && Wf(rhs) && rhs.rows == lhs.cols * lhs.bc
    requires 0 <= i < lhs.rows * lhs.br && 0 <= b < rhs.cols && k < |lhs.entries|
    requires forall j :: h(j) == DenseTerm(lhs, rhs, i, b, j, k)
    ensures Sum(rhs.rows, h) == BlockRowTerm(lhs, rhs, k, i, b)
  {
    var s := lhs.entries;
    var so, si := lhs.br, lhs.bc;
    DivBound(i, so, lhs.rows);
    if s[k].row != i / so || si == 0 {
      SumZero(rhs.rows, h);
    } else {
      var e := s[k];
      var g := y => Get(e.tile, i % so, y) * Get(rhs, e.col * si + y, b);
      forall j | 0 <= j < rhs.rows
        ensures h(j) == if j / si == e.col then g(j % si) else 0
      {
        assert j == (j / si) * si + j % si;
      }
      SumOneBlock(lhs.cols, si, e.col, h, g);
    }
  }

  /** The reference: element (i, b) of to_dense(lhs) @ rhs, as the same sum over stored blocks. */
  lemma DenseElement(lhs: BlockCoo, rhs: Matrix, i: int, b: int)
    requires Valid(lhs) && Wf(rhs) && rhs.rows == lhs.cols * lhs.bc
    requires 0 <= i < lhs.rows * lhs.br && 0 <= b < rhs.cols
    ensures Get(MatMul(ToDense(lhs), rhs), i, b) == Sum(|lhs.entries|, k => BlockRowTerm(lhs, rhs, k, i, b))
  {
    var m := |lhs.entries|;
    var g := (j, k) => DenseTerm(lhs, rhs, i, b, j, k);
    DenseDoubleSum(lhs, rhs, i, b, g);
    SumSwap(rhs.rows, m, g);
    forall k | 0 <= k < m
      ensures Sum(rhs.rows, j => g(j, k)) == BlockRowTerm(lhs, rhs, k, i, b)
    {
      DenseEntrySum(lhs, rhs, i, b, k, j => g(j, k));
    }
    SumExt(m, k => Sum(rhs.rows, j => g(j, k)), k => BlockRowTerm(lhs, rhs, k, i, b));
  }

  /** Gather-multiply-scatter computes exactly to_dense(lhs) @ rhs. */
  lemma GatherMultiplyScatterCorrect(lhs: BlockCoo, rhs: Matrix)
    requires Valid(lhs) && Wf(rhs) && rhs.rows == lhs.cols * lhs.bc
    ensures GatherMultiplyScatter(lhs, rhs) == MatMul(ToDense(lhs), rhs)
  {
    var out := GatherMultiplyScatter(lhs, rhs);
    var ref := MatMul(ToDense(lhs), rhs);
    forall i, b | 0 <= i < lhs.rows * lhs.br && 0 <= b < rhs.cols
      ensures Get(out, i, b) == Get(ref, i, b)
    {
      GmsElement(lhs, rhs, i, b);
      DenseElement(lhs, rhs, i, b);
    }
    Ext(out, ref);
  }

  /** The "sparse_dense" core: the size check, then gather-multiply-scatter. */
  function SparseDenseGs(lhs: BlockCoo, rhs: Matrix): (r: Result<Matrix, SpmmError>)
    requires Valid(lhs) && Wf(rhs)
    ensures r.Err? <==> rhs.rows != lhs.cols * lhs.bc
    ensures r.Ok? ==> r.value == MatMul(ToDense(lhs), rhs)
  {
    if rhs.rows != lhs.cols * lhs.bc then Err(SizeMismatch(lhs.cols, lhs.bc, rhs.rows))
    else
      GatherMultiplyScatterCorrect(lhs, rhs);
      Ok(GatherMultiplyScatter(lhs, rhs))
  }

  /**
   * block_coo_spmm_gs. Refuses a tensor that is not sparse COO and a mode
   * other than "sparse_dense" and "dense_sparse". In "sparse_dense" mode the
   * indices cannot be read off an uncoalesced tensor, and they unpack into
   * (rows, cols) only when there are two sparse dimensions; in
   * "dense_sparse" mode the transpose's permute(1, 0, 3, 2) needs those two
   * sparse dimensions too. Then a dense operand of the wrong size is
   * refused. Otherwise the result is to_dense(S) @ D, or D @ to_dense(S) in
   * "dense_sparse" mode, which is computed as (transpose(S) @ D^T)^T.
   */
  function BlockCooSpmmGs(t: SparseTensor, dense: Matrix, mode: string): (r: Result<Matrix, SpmmError>)
    requires TensorOk(t) && Wf(dense)
    ensures r.Err? <==>
      || t.layout != SparseCoo
      || (mode != SparseDense && mode != DenseSparse)
      || t.sparseDim != 2
      || (mode == SparseDense && (!t.coalesced || dense.rows != t.block.cols * t.block.bc))
      || (mode == DenseSparse && dense.cols != t.block.rows * t.block.br)
    ensures r.Err? && t.layout != SparseCoo ==> r.error == NotCoo
    ensures (r.Err? && t.layout == SparseCoo && (mode == SparseDense || mode == DenseSparse)
      && t.sparseDim != 2 && (t.coalesced || mode == DenseSparse)) ==> r.error.NotBlock2D?
    ensures r.Ok? && mode == SparseDense ==> r.value == MatMul(ToDense(t.block), dense)
    ensures r.Ok? && mode == DenseSparse ==> r.value == MatMul(dense, ToDense(t.block))
  {
    if t.layout != SparseCoo then Err(NotCoo)
    else if mode == SparseDense then
      if !t.coalesced then Err(NotCoalesced)
      else if t.sparseDim != 2 then Err(NotBlock2D(t.sparseDim, t.denseDim))
      else SparseDenseGs(t.block, dense)
    else if mode == DenseSparse then
      if t.sparseDim != 2 then Err(NotBlock2D(t.sparseDim, t.denseDim))
      else
        TransposeBlocks(t.block);
        match SparseDenseGs(BlockCooTranspose(t.block), Transpose(dense))
        case Ok(y) =>
          TransposeToDense(t.block);
          MatMulTranspose(ToDense(t.block), dense);
          Ok(Transpose(y))
        case Err(e) => Err(e)
    else Err(BadMode(mode))
  }

  /** The attributes handed to the accelerator's static sparse matmul. */
  datatype IpuAttributes = IpuAttributes(
    mode: string, nRows: nat, nCols: nat, blockSize: nat,
    rows: seq<nat>, cols: seq<nat>, values: seq<int>)

  /** The custom-op call: the declared output shape and the attributes. */
  datatype IpuCall = IpuCall(outRows: nat, outCols: nat, attributes: IpuAttributes)

  function Scale(factor: nat, indices: seq<nat>): (r: seq<nat>)
    ensures |r| == |indices|
    ensures forall k :: 0 <= k < |r| ==> r[k] == factor * indices[k]
  {
    seq(|indices|, k requires 0 <= k < |indices| => factor * indices[k])
  }

  function ColIndices(entries: seq<Entry>): (idx: seq<nat>)
    ensures |idx| == |entries|
    ensures forall k :: 0 <= k < |entries| ==> idx[k] == entries[k].col
  {
    seq(|entries|, k requires 0 <= k < |entries| => entries[k].col)
  }

  /** The rows of a matrix laid end to end. */
  function Concat(rows: seq<seq<int>>): seq<int> {
    if rows == [] then [] else rows[0] + Concat(rows[1..])
  }

  lemma {:induction false} ConcatAt(rows: seq<seq<int>>, c: nat, a: nat, b: nat)
    requires forall i :: 0 <= i < |rows| ==> |rows[i]| == c
    requires a < |rows| && b < c
    ensures |Concat(rows)| == |rows| * c
    ensures a * c + b < |rows| * c && Concat(rows)[a * c + b] == rows[a][b]
  {
    ConcatLength(rows, c);
    if a > 0 {
      ConcatAt(rows[1..], c, a - 1, b);
      assert a * c + b == c + ((a - 1) * c + b);
    }
  }

  lemma {:induction false} ConcatLength(rows: seq<seq<int>>, c: nat)
    requires forall i :: 0 <= i < |rows| ==> |rows[i]| == c
    ensures |Concat(rows)| == |rows| * c
  {
    if rows != [] {
      ConcatLength(rows[1..], c);
    }
  }

  /** values().flatten(): the stored tiles, each in row-major order, in storage order. */
  function FlattenTiles(s: seq<Entry>): seq<int> {
    if s == [] then [] else Concat(s[0].tile.data) + FlattenTiles(s[1..])
  }

  lemma {:induction false} FlattenTilesLength(s: seq<Entry>, br: nat, bc: nat)
    requires TilesShaped(s, br, bc)
    ensures |FlattenTiles(s)| == |s| * (br * bc)
  {
    if s != [] {
      var n := br * bc;
      ConcatLength(s[0].tile.data, bc);
      FlattenTilesLength(s[1..], br, bc);
      assert |FlattenTiles(s)| == n + (|s| - 1) * n;
      MulSucc(|s| - 1, n);
    }
  }

  /** Position k*n + p of the flattened values is position p of the k-th tile's rows laid end to end. */
  lemma FlattenAt(s: seq<Entry>, n: nat, k: nat, p: nat)
    requires forall i :: 0 <= i < |s| ==> |Concat(s[i].tile.data)| == n
    requires k < |s| && p < n
    ensures k * n + p < |FlattenTiles(s)|
    ensures FlattenTiles(s)[k * n + p] == Concat(s[k].tile.data)[p]
  {
    FlattenFrom(s, n, k, k * n, p);
  }

  /** FlattenAt with the offset k*n of the k-th tile passed in, so that the induction stays linear. */
  lemma {:induction false} FlattenFrom(s: seq<Entry>, n: nat, k: nat, offset: nat, p: nat)
    requires forall i :: 0 <= i < |s| ==> |Concat(s[i].tile.data)| == n
    requires k < |s| && p < n && offset == k * n
    ensures offset + p < |FlattenTiles(s)|
    ensures FlattenTiles(s)[offset + p] == Concat(s[k].tile.data)[p]
  {
    var head, rest := Concat(s[0].tile.data), FlattenTiles(s[1..]);
    assert FlattenTiles(s) == head + rest;
    assert |head| == n;
    if k > 0 {
      MulSucc(k - 1, n);
      FlattenFrom(s[1..], n, k - 1, offset - n, p);
      assert FlattenTiles(s)[offset + p] == rest[offset - n + p];
    } else {
      assert FlattenTiles(s)[offset + p] == head[p];
    }
  }

  lemma TileIndex(k: nat, br: nat, bc: nat, a: nat, b: nat)
    requires a < br && b < bc
    ensures a * bc + b < br * bc
    ensures (k * br + a) * bc + b == k * (br * bc) + (a * bc + b)
  {
    MulMono(a + 1, br, bc);
  }

  /** Element (a, b) of the k-th stored tile sits at position (k*br + a)*bc + b of the flattened values. */
  lemma FlattenTilesAt(s: seq<Entry>, br: nat, bc: nat, k: nat, a: nat, b: nat)
    requires TilesShaped(s, br, bc) && k < |s| && a < br && b < bc
    ensures |FlattenTiles(s)| == |s| * (br * bc)
    ensures 0 <= (k * br + a) * bc + b < |FlattenTiles(s)|
    ensures FlattenTiles(s)[(k * br + a) * bc + b] == Get(s[k].tile, a, b)
  {
    var n := br * bc;
    FlattenTilesLength(s, br, bc);
    forall i | 0 <= i < |s|
      ensures |Concat(s[i].tile.data)| == n
    {
      ConcatLength(s[i].tile.data, bc);
    }
    var p := a * bc + b;
    TileIndex(k, br, bc, a, b);
    FlattenAt(s, n, k, p);
    ConcatAt(s[k].tile.data, bc, a, b);
    assert (k * br + a) * bc + b == k * n + p;
  }

  /**
   * The validation and attribute arithmetic of block_coo_spmm_ipu, up to the
   * custom-op call. Checks, in order: the mode, the COO layout, two sparse
   * and two dense dimensions, square blocks, a 2-D dense operand, and (when
   * the indices are read) a coalesced tensor.
   */
  function BlockCooSpmmIpu(t: SparseTensor, denseShape: seq<nat>, mode: string): (r: Result<IpuCall, SpmmError>)
    requires TensorOk(t)
    ensures r.Err? <==>
      || (mode != SparseDense && mode != DenseSparse)
      || t.layout != SparseCoo
      || t.sparseDim != 2 || t.denseDim != 2
      || t.block.br != t.block.bc
      || |denseShape| != 2
      || !t.coalesced
    ensures r.Err? && mode != SparseDense && mode != DenseSparse ==> r.error == BadMode(mode)
    ensures (r.Err? && (mode == SparseDense || mode == DenseSparse) && t.layout != SparseCoo) ==> r.error == NotCoo
    ensures (r.Err? && (mode == SparseDense || mode == DenseSparse) && t.layout == SparseCoo
      && (t.sparseDim != 2 || t.denseDim != 2)) ==> r.error.NotBlock2D?
    ensures (r.Err? && (mode == SparseDense || mode == DenseSparse) && t.layout == SparseCoo
      && t.sparseDim == 2 && t.denseDim == 2 && t.block.br != t.block.bc) ==> r.error.NonSquareBlocks?
    ensures (r.Err? && (mode == SparseDense || mode == DenseSparse) && t.layout == SparseCoo
      && t.sparseDim == 2 && t.denseDim == 2 && t.block.br == t.block.bc && |denseShape| != 2)
      ==> r.error == DenseNot2D(|denseShape|)
    ensures (r.Err? && (mode == SparseDense || mode == DenseSparse) && t.layout == SparseCoo
      && t.sparseDim == 2 && t.denseDim == 2 && t.block.br == t.block.bc && |denseShape| == 2)
      ==> r.error == NotCoalesced
    ensures r.Ok? ==>
      var m, call := t.block, r.value;
      && (mode == SparseDense ==> call.outRows == m.rows * m.br && call.outCols == denseShape[1])
      && (mode == DenseSparse ==> call.outRows == denseShape[0] && call.outCols == m.cols * m.bc)
      && call.attributes.mode == mode
      && call.attributes.nRows == m.rows * m.br
      && call.attributes.nCols == m.cols * m.bc
      && call.attributes.blockSize == m.br
      && |call.attributes.rows| == |call.attributes.cols| == |m.entries|
      && (forall k :: 0 <= k < |m.entries| ==>
            call.attributes.rows[k] == m.br * m.entries[k].row && call.attributes.cols[k] == m.bc * m.entries[k].col)
      && |call.attributes.values| == |m.entries| * (m.br * m.bc)
  {
    var m := t.block;
    if mode != SparseDense && mode != DenseSparse then Err(BadMode(mode))
    else if t.layout != SparseCoo then Err(NotCoo)
    else if t.sparseDim != 2 || t.denseDim != 2 then Err(NotBlock2D(t.sparseDim, t.denseDim))
    else if m.br != m.bc then Err(NonSquareBlocks(m.br, m.bc))
    else if |denseShape| != 2 then Err(DenseNot2D(|denseShape|))
    else if !t.coalesced then Err(NotCoalesced)
    else
      var outRows := if mode == SparseDense then m.rows * m.br else denseShape[0];
      var outCols := if mode == SparseDense then denseShape[1] else m.cols * m.bc;
      FlattenTilesLength(m.entries, m.br, m.bc);
      Ok(IpuCall(outRows, outCols, IpuAttributes(
        mode, m.rows * m.br, m.cols * m.bc, m.br,
        Scale(m.br, RowIndices(m.entries)), Scale(m.bc, ColIndices(m.entries)),
        FlattenTiles(m.entries))))
  }

  /** The values attribute holds element (a, b) of the k-th stored block at (k*B + a)*B + b. */
  lemma IpuValuesAt(t: SparseTensor, denseShape: seq<nat>, mode: string, k: nat, a: nat, b: nat)
    requires TensorOk(t) && BlockCooSpmmIpu(t, denseShape, mode).Ok?
    requires k < |t.block.entries| && a < t.block.br && b < t.block.br
    ensures var v, bs := BlockCooSpmmIpu(t, denseShape, mode).value.attributes.values, t.block.br;
      0 <= (k * bs + a) * bs + b < |v| && v[(k * bs + a) * bs + b] == Get(t.block.entries[k].tile, a, b)
  {
    FlattenTilesAt(t.block.entries, t.block.br, t.block.bc, k, a, b);
  }

  /** The accelerator path and the software path agree on the shape of the result. */
  lemma IpuShapeMatchesGs(t: SparseTensor, dense: Matrix, mode: string)
    requires TensorOk(t) && Wf(dense)
    requires t.sparseDim == 2 && t.denseDim == 2 && t.block.br == t.block.bc
    requires BlockCooSpmmGs(t, dense, mode).Ok? && t.coalesced
    ensures BlockCooSpmmIpu(t, [dense.rows, dense.cols], mode).Ok?
    ensures var y, call := BlockCooSpmmGs(t, dense, mode).value, BlockCooSpmmIpu(t, [dense.rows, dense.cols], mode).value;
      y.rows == call.outRows && y.cols == call.outCols
  {
  }

  /** What block_coo_spmm returns: a product computed here, or the call handed to the accelerator. */
  datatype Dispatched = Computed(y: Matrix) | Offloaded(call: IpuCall)

  /** block_coo_spmm: the accelerator path when running on one, the software path otherwise. */
  function BlockCooSpmm(t: SparseTensor, dense: Matrix, mode: string, onIpu: bool): (r: Result<Dispatched, SpmmError>)
    requires TensorOk(t) && Wf(dense)
    ensures r.Err? <==> (if onIpu then BlockCooSpmmIpu(t, [dense.rows, dense.cols], mode).Err? else BlockCooSpmmGs(t, dense, mode).Err?)
    ensures r.Err? ==> r.error == (if onIpu then BlockCooSpmmIpu(t, [dense.rows, dense.cols], mode).error else BlockCooSpmmGs(t, dense, mode).error)
    ensures r.Ok? ==> (r.value.Offloaded? <==> onIpu)
    ensures r.Ok? && onIpu ==> r.value.call == BlockCooSpmmIpu(t, [dense.rows, dense.cols], mode).value
    ensures r.Ok? && !onIpu && mode == SparseDense ==>
      dense.rows == t.block.cols * t.block.bc && r.value.y == MatMul(ToDense(t.block), dense)
    ensures r.Ok? && !onIpu && mode == DenseSparse ==>
      dense.cols == t.block.rows * t.block.br && r.value.y == MatMul(dense, ToDense(t.block))
  {
    if onIpu then
      match BlockCooSpmmIpu(t, [dense.rows, dense.cols], mode)
      case Ok(call) => Ok(Offloaded(call))
      case Err(e) => Err(e)
    else
      match BlockCooSpmmGs(t, dense, mode)
      case Ok(y) => Ok(Computed(y))
      case Err(e) => Err(e)
  }

  /** StaticSparseMatrix @ rhs. */
  function StaticSparseMatMul(matrix: SparseTensor, rhs: Matrix, onIpu: bool): (r: Result<Dispatched, SpmmError>)
    requires TensorOk(matrix) && Wf(rhs)
    ensures !onIpu ==> (r.Err? <==>
      || matrix.layout != SparseCoo || !matrix.coalesced || matrix.sparseDim != 2
      || rhs.rows != matrix.block.cols * matrix.block.bc)
    ensures onIpu ==> (r.Err? <==> BlockCooSpmmIpu(matrix, [rhs.rows, rhs.cols], SparseDense).Err?)
    ensures r.Ok? ==> (r.value.Offloaded? <==> onIpu)
    ensures r.Ok? && onIpu ==> r.value.call == BlockCooSpmmIpu(matrix, [rhs.rows, rhs.cols], SparseDense).value
    ensures r.Ok? && !onIpu ==>
      rhs.rows == matrix.block.cols * matrix.block.bc && r.value.y == MatMul(ToDense(matrix.block), rhs)
  {
    BlockCooSpmm(matrix, rhs, SparseDense, onIpu)
  }

  /** lhs @ StaticSparseMatrix. */
  function StaticSparseRMatMul(matrix: SparseTensor, lhs: Matrix, onIpu: bool): (r: Result<Dispatched, SpmmError>)
    requires TensorOk(matrix) && Wf(lhs)
    ensures !onIpu ==> (r.Err? <==>
      || matrix.layout != SparseCoo || matrix.sparseDim != 2
      || lhs.cols != matrix.block.rows * matrix.block.br)
    ensures onIpu ==> (r.Err? <==> BlockCooSpmmIpu(matrix, [lhs.rows, lhs.cols], DenseSparse).Err?)
    ensures r.Ok? ==> (r.value.Offloaded? <==> onIpu)
    ensures r.Ok? && onIpu ==> r.value.call == BlockCooSpmmIpu(matrix, [lhs.rows, lhs.cols], DenseSparse).value
    ensures r.Ok? && !onIpu ==>
      lhs.cols == matrix.block.rows * matrix.block.br && r.value.y == MatMul(lhs, ToDense(matrix.block))
  {
    BlockCooSpmm(matrix, lhs, DenseSparse, onIpu)
  }

  /**
   * StaticSparseLinear.forward on the software path: (W @ x^T)^T, which is
   * the linear layer x @ W^T of the dense weight.
   */
  function StaticSparseLinearForward(weight: SparseTensor, x: Matrix): (r: Result<Matrix, SpmmError>)
    requires TensorOk(weight) && Wf(x)
    ensures r.Err? <==>
      || weight.layout != SparseCoo || !weight.coalesced || weight.sparseDim != 2
      || x.cols != weight.block.cols * weight.block.bc
    ensures r.Ok? ==> r.value == MatMul(x, Transpose(ToDense(weight.block)))
  {
    match StaticSparseMatMul(weight, Transpose(x), false)
    case Ok(d) =>
      var w := ToDense(weight.block);
      TransposeTranspose(w);
      MatMulTranspose(Transpose(w), x);
      Ok(Transpose(d.y))
    case Err(e) => Err(e)
  }
}
