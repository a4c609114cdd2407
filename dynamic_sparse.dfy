/**
 * The dynamic-sparse accelerator op. The Python driver reads a block-COO
 * tensor's indices, values and shape and builds the attribute dictionary of
 * the custom op; the C++ side turns the attributes into a StaticCooMatrix,
 * converts its block indices into the element indices popsparse expects,
 * chooses the sparsity type and infers the output shape.
 *
 * Python integers become C++ `unsigned` (32-bit) sizes and `size_t`
 * (64-bit) indices; those conversions and the index arithmetic are written
 * out modulo 2^32 and 2^64.
 */
module DynamicSparse {
  import opened Dense
  import opened Results
  import opened BlockCoo
  import Spmm

  // ---------------------------------------------------------------------
  // Python driver: dynamic_spmm_ipu

  datatype DynError =
    | NotCoo                          // indices() of a strided tensor
    | NotCoalesced                    // indices() of an uncoalesced tensor
    | IndicesNot2D(sparseDim: nat)    // the indices do not unpack into (rows, cols)
    | SparseShapeTooShort(rank: nat)  // shape[2] or shape[3] is out of range
    | DenseShapeTooShort(rank: nat)   // dense.shape[0] or dense.shape[1] is out of range
    | ColumnMismatch(nRows: nat, nCols: nat, denseShape: seq<nat>)  // the ValueError
    | NonSquareBlocks(br: nat, bc: nat)

  /** The attribute dictionary handed to the custom op. */
  datatype Attributes = Attributes(
    nRows: int, nCols: int, blockSize: int,
    rows: seq<int>, cols: seq<int>, values: seq<int>)

  /** The custom-op call: the example output's shape and the attributes. */
  datatype DynCall = DynCall(outRows: nat, outCols: nat, attributes: Attributes)

  function AsInts(s: seq<nat>): (r: seq<int>)
    ensures |r| == |s| && forall k :: 0 <= k < |s| ==> r[k] == s[k]
  {
    seq(|s|, k requires 0 <= k < |s| => s[k] as int)
  }

  /** The attributes read off a tensor: block indices unscaled, tiles flattened row-major in storage order. */
  function AttributesOf(m: BlockCoo): Attributes {
    Attributes(m.rows * m.br, m.cols * m.bc, m.br,
      AsInts(Spmm.RowIndices(m.entries)), AsInts(Spmm.ColIndices(m.entries)), Spmm.FlattenTiles(m.entries))
  }

  /**
   * dynamic_spmm_ipu as written, up to the custom-op call: no check that
   * the blocks are square. Unlike the static path it asks nothing of the
   * tensor beforehand, since the Python function accepts any tensor and
   * checks the split itself: the sparse_dim and dense_dim fields stand for
   * the split of whatever tensor the caller passes, so the dense_dim < 2
   * branch is the error on a tensor such as a 2+1 one.
   */
  function DynamicSpmmIpu(t: SparseTensor, denseShape: seq<nat>): (r: Result<DynCall, DynError>)
    ensures r.Err? <==>
      || t.layout != SparseCoo || !t.coalesced || t.sparseDim != 2 || t.denseDim < 2
      || |denseShape| < 2 || denseShape[0] != t.block.cols * t.block.bc
    ensures (r.Err? && t.layout == SparseCoo && t.coalesced && t.sparseDim == 2 && t.denseDim >= 2
      && |denseShape| >= 1 && denseShape[0] != t.block.cols * t.block.bc) ==> r.error.ColumnMismatch?
    ensures r.Ok? ==> var m, call := t.block, r.value;
      && call.outRows == m.rows * m.br && call.outCols == denseShape[1]
      && call.attributes.nRows == m.rows * m.br
      && call.attributes.nCols == m.cols * m.bc
      && call.attributes.blockSize == m.br
      && |call.attributes.rows| == |call.attributes.cols| == |m.entries|
      && (forall k :: 0 <= k < |m.entries| ==>
            call.attributes.rows[k] == m.entries[k].row && call.attributes.cols[k] == m.entries[k].col)
      && call.attributes.values == Spmm.FlattenTiles(m.entries)
  {
    var m := t.block;
    if t.layout != SparseCoo then Err(NotCoo)
    else if !t.coalesced then Err(NotCoalesced)
    else if t.sparseDim != 2 then Err(IndicesNot2D(t.sparseDim))
    else if t.denseDim < 2 then Err(SparseShapeTooShort(t.sparseDim + t.denseDim))
    else if |denseShape| < 1 then Err(DenseShapeTooShort(|denseShape|))
    else if denseShape[0] != m.cols * m.bc then Err(ColumnMismatch(m.rows * m.br, m.cols * m.bc, denseShape))
    else if |denseShape| < 2 then Err(DenseShapeTooShort(|denseShape|))
    else Ok(DynCall(m.rows * m.br, denseShape[1], AttributesOf(m)))
  }

  /**
   * The values attribute is the tiles flattened row-major in storage order:
   * element (a, b) of the k-th stored block sits at (k*br + a)*bc + b.
   */
  lemma DynamicValuesAt(t: SparseTensor, denseShape: seq<nat>, k: nat, a: nat, b: nat)
    requires Valid(t.block) && DynamicSpmmIpu(t, denseShape).Ok?
    requires k < |t.block.entries| && a < t.block.br && b < t.block.bc
    ensures var v, m := DynamicSpmmIpu(t, denseShape).value.attributes.values, t.block;
      |v| == |m.entries| * (m.br * m.bc)
      && 0 <= (k * m.br + a) * m.bc + b < |v| && v[(k * m.br + a) * m.bc + b] == Get(m.entries[k].tile, a, b)
  {
    Spmm.FlattenTilesAt(t.block.entries, t.block.br, t.block.bc, k, a, b);
  }

  /** dynamic_spmm_ipu with the square-block check the static path makes. */
  function DynamicSpmmIpuChecked(t: SparseTensor, denseShape: seq<nat>): (r: Result<DynCall, DynError>)
    ensures r.Err? <==> DynamicSpmmIpu(t, denseShape).Err? || t.block.br != t.block.bc
    ensures r.Ok? ==> r == DynamicSpmmIpu(t, denseShape)
  {
    if t.block.br != t.block.bc && DynamicSpmmIpu(t, denseShape).Ok? then Err(NonSquareBlocks(t.block.br, t.block.bc))
    else DynamicSpmmIpu(t, denseShape)
  }

  // ---------------------------------------------------------------------
  // C++ side

  const U32: nat := 0x1_0000_0000
  const U64: nat := 0x1_0000_0000_0000_0000

  /** Conversion of a 64-bit attribute to `unsigned`: the value modulo 2^32. */
  function ToU32(x: int): (r: nat)
    ensures r < U32 && (x - r) % U32 == 0
    ensures 0 <= x < U32 ==> r == x
  {
    x % U32
  }

  /** Conversion of a 64-bit attribute to `size_t`: the value modulo 2^64. */
  function ToU64(x: int): (r: nat)
    ensures r < U64 && (x - r) % U64 == 0
    ensures 0 <= x < U64 ==> r == x
  {
    x % U64
  }

  function AllToU64(s: seq<int>): (r: seq<nat>)
    ensures |r| == |s| && forall k :: 0 <= k < |s| ==> r[k] == ToU64(s[k])
  {
    seq(|s|, k requires 0 <= k < |s| => ToU64(s[k]))
  }

  /** StaticCooMatrix: sizes are 32-bit unsigned, block indices 64-bit. */
  datatype StaticCooMatrix = StaticCooMatrix(
    nRows: nat, nCols: nat, blockSize: nat,
    rows: seq<nat>, cols: seq<nat>, values: seq<int>)

  predicate WellTyped(m: StaticCooMatrix) {
    && m.nRows < U32 && m.nCols < U32 && m.blockSize < U32
    && (forall k :: 0 <= k < |m.rows| ==> m.rows[k] < U64)
    && (forall k :: 0 <= k < |m.cols| ==> m.cols[k] < U64)
  }

  /** The op creator: every field copied from its attribute, converted to its C++ type. */
  function OpCreator(a: Attributes): (m: StaticCooMatrix)
    ensures WellTyped(m)
    ensures |m.rows| == |a.rows| && |m.cols| == |a.cols| && m.values == a.values
    ensures 0 <= a.nRows < U32 ==> m.nRows == a.nRows
    ensures 0 <= a.nCols < U32 ==> m.nCols == a.nCols
    ensures 0 <= a.blockSize < U32 ==> m.blockSize == a.blockSize
    ensures forall k :: 0 <= k < |a.rows| && 0 <= a.rows[k] < U64 ==> m.rows[k] == a.rows[k]
    ensures forall k :: 0 <= k < |a.cols| && 0 <= a.cols[k] < U64 ==> m.cols[k] == a.cols[k]
  {
    StaticCooMatrix(ToU32(a.nRows), ToU32(a.nCols), ToU32(a.blockSize),
      AllToU64(a.rows), AllToU64(a.cols), a.values)
  }

  /** popsparse::COOMatrix: values, element column indices, element row indices, block dimensions. */
  datatype PopCoo = PopCoo(values: seq<int>, columnIndices: seq<nat>, rowIndices: seq<nat>, blockDims: (nat, nat))

  /** blockSize * idx in size_t arithmetic. */
  function ScaleIndex(blockSize: nat, idx: nat): nat {
    (blockSize * idx) % U64
  }

  /** The std::transform of toPopSparse: each block index times the block size, into a fresh vector. */
  method ScaleIndices(blockSize: nat, idx: seq<nat>) returns (out: seq<nat>)
    ensures |out| == |idx|
    ensures forall k :: 0 <= k < |idx| ==> out[k] == ScaleIndex(blockSize, idx[k])
  {
    var a := new nat[|idx|];
    for k := 0 to |idx|
      invariant forall j :: 0 <= j < k ==> a[j] == ScaleIndex(blockSize, idx[j])
    {
      a[k] := (blockSize * idx[k]) % U64;
    }
    out := a[..];
  }

  /** toPopSparse: block indices become element indices; the values pass through. */
  method ToPopSparse(m: StaticCooMatrix) returns (p: PopCoo)
    ensures p.values == m.values && p.blockDims == (m.blockSize, m.blockSize)
    ensures |p.columnIndices| == |m.cols| && |p.rowIndices| == |m.rows|
    ensures forall k :: 0 <= k < |m.cols| ==> p.columnIndices[k] == ScaleIndex(m.blockSize, m.cols[k])
    ensures forall k :: 0 <= k < |m.rows| ==> p.rowIndices[k] == ScaleIndex(m.blockSize, m.rows[k])
  {
    var colIndices := ScaleIndices(m.blockSize, m.cols);
    var rowIndices := ScaleIndices(m.blockSize, m.rows);
    p := PopCoo(m.values, colIndices, rowIndices, (m.blockSize, m.blockSize));
  }

  lemma ToU32Exact(x: int)
    requires 0 <= x < U32
    ensures ToU32(x) == x
  {
  }

  lemma ToU64Exact(x: int)
    requires 0 <= x < U64
    ensures ToU64(x) == x
  {
  }

  /** Without wrap-around, an element index is exactly block index times block size. */
  lemma ScaleIndexExact(blockSize: nat, idx: nat)
    requires blockSize * idx < U64
    ensures ScaleIndex(blockSize, idx) == blockSize * idx
  {
  }

  datatype SparsityType = Element | Block

  /** Sparsity parameters and matmul parameters of staticSparseDenseMatMul. */
  datatype MatMulParams = MatMulParams(
    sparsity: SparsityType, blockDims: (nat, nat), numNonZeroValues: nat,
    numGroups: nat, nRows: nat, nCols: nat, batchSize: nat)

  function SparsityOf(m: StaticCooMatrix): (s: SparsityType)
    ensures s == Element <==> m.blockSize == 1
  {
    if m.blockSize == 1 then Element else Block
  }

  function ParamsOf(m: StaticCooMatrix, batchSize: nat): (p: MatMulParams)
    ensures p.sparsity == Element <==> m.blockSize == 1
    ensures p.numNonZeroValues == |m.values| && p.numGroups == 1
    ensures p.nRows == m.nRows && p.nCols == m.nCols && p.batchSize == batchSize
  {
    MatMulParams(SparsityOf(m), (m.blockSize, m.blockSize), |m.values|, 1, m.nRows, m.nCols, batchSize)
  }

  datatype DataType = Float16 | Float32

  datatype TensorInfo = TensorInfo(dataType: DataType, shape: seq<int>)

  /** The custom op: its matrix, and the output tensor information that shape inference fills in. */
  class CustomOp {
    const matrix: StaticCooMatrix
    var outInfo: TensorInfo

    constructor(matrix: StaticCooMatrix)
      ensures this.matrix == matrix && outInfo == TensorInfo(Float32, [])
    {
      this.matrix := matrix;
      outInfo := TensorInfo(Float32, []);
    }

    /** setup(): the output has the input's data type and shape (nRows, input.dim(1)). */
    method Setup(input: TensorInfo)
      requires |input.shape| >= 2
      modifies this
      ensures outInfo == TensorInfo(input.dataType, [matrix.nRows, input.shape[1]])
    {
      outInfo := TensorInfo(input.dataType, [matrix.nRows, input.shape[1]]);
    }
  }

  // ---------------------------------------------------------------------
  // The two sides together

  /** Sizes small enough for the C++ types: block sizes and element counts fit in 32 bits. */
  predicate Fits(m: BlockCoo) {
    m.br < U32 && m.bc < U32 && m.rows * m.br < U32 && m.cols * m.bc < U32
  }

  lemma IndexFits(n: nat, b: nat, idx: nat)
    requires idx < n && n * b < U32
    ensures b * idx < U64 && (b > 0 ==> idx < U32)
  {
    MulMono(idx, n, b);
  }

  /** What the checked driver accepts, and the call it builds. */
  lemma CheckedCall(t: SparseTensor, denseShape: seq<nat>)
    requires DynamicSpmmIpuChecked(t, denseShape).Ok?
    ensures t.layout == SparseCoo && t.coalesced && t.sparseDim == 2 && t.denseDim >= 2
    ensures t.block.br == t.block.bc && |denseShape| >= 2 && denseShape[0] == t.block.cols * t.block.bc
    ensures DynamicSpmmIpuChecked(t, denseShape).value
      == DynCall(t.block.rows * t.block.br, denseShape[1], AttributesOf(t.block))
  {
  }

  /**
   * For square blocks whose sizes fit the C++ types, the matrix the op
   * creator builds from a tensor's attributes holds the sizes unchanged, and
   * toPopSparse's element indices are block index times block size: the
   * row and column where to_dense puts each block.
   */
  lemma {:induction false} CreatorIndices(m: BlockCoo)
    requires Valid(m) && Fits(m) && m.br == m.bc
    ensures var c := OpCreator(AttributesOf(m));
      && c.nRows == m.rows * m.br && c.nCols == m.cols * m.bc && c.blockSize == m.br
      && |c.rows| == |c.cols| == |m.entries|
      && (forall k :: 0 <= k < |m.entries| ==>
            ScaleIndex(c.blockSize, c.rows[k]) == m.br * m.entries[k].row
            && ScaleIndex(c.blockSize, c.cols[k]) == m.bc * m.entries[k].col)
      && ParamsOf(c, 0).numNonZeroValues == |m.entries| * (m.br * m.bc)
  {
    var a := AttributesOf(m);
    var nr, nc := m.rows * m.br, m.cols * m.bc;
    assert a.nRows == nr && a.nCols == nc && a.blockSize == m.br;
    ToU32Exact(nr);
    ToU32Exact(nc);
    ToU32Exact(m.br);
    forall k | 0 <= k < |m.entries| {
      CreatorIndexAt(m, k);
    }
    Spmm.FlattenTilesLength(m.entries, m.br, m.bc);
  }

  /** One entry of CreatorIndices. */
  lemma CreatorIndexAt(m: BlockCoo, k: nat)
    requires Valid(m) && Fits(m) && m.br == m.bc && k < |m.entries|
    ensures var c := OpCreator(AttributesOf(m));
      && ScaleIndex(c.blockSize, c.rows[k]) == m.br * m.entries[k].row
      && ScaleIndex(c.blockSize, c.cols[k]) == m.bc * m.entries[k].col
  {
    var a := AttributesOf(m);
    var c := OpCreator(a);
    var e := m.entries[k];
    assert e.row < m.rows && e.col < m.cols;
    IndexFits(m.rows, m.br, e.row);
    IndexFits(m.cols, m.bc, e.col);
    assert a.rows[k] == e.row && a.cols[k] == e.col;
    ToU32Exact(m.br);
    if m.br > 0 {
      ToU64Exact(e.row);
      ToU64Exact(e.col);
    }
    ScaleIndexExact(m.br, e.row);
    ScaleIndexExact(m.bc, e.col);
  }

  /**
   * The checked driver and the static path hand the accelerator the same
   * sizes and, once toPopSparse has scaled them, the same element indices;
   * the custom op's inferred output shape is the shape the driver declares.
   */
  lemma DynamicAgreesWithStaticIpu(t: SparseTensor, denseShape: seq<nat>, input: TensorInfo)
    requires TensorOk(t) && Fits(t.block)
    requires DynamicSpmmIpuChecked(t, denseShape).Ok? && t.denseDim == 2 && |denseShape| == 2
    requires input.shape == denseShape
    ensures Spmm.BlockCooSpmmIpu(t, denseShape, Spmm.SparseDense).Ok?
    ensures var call, s := DynamicSpmmIpuChecked(t, denseShape).value,
                           Spmm.BlockCooSpmmIpu(t, denseShape, Spmm.SparseDense).value;
      var c := OpCreator(call.attributes);
      && c.nRows == s.attributes.nRows && c.nCols == s.attributes.nCols && c.blockSize == s.attributes.blockSize
      && |c.rows| == |s.attributes.rows| && |c.cols| == |s.attributes.cols|
      && (forall k :: 0 <= k < |c.rows| ==> ScaleIndex(c.blockSize, c.rows[k]) == s.attributes.rows[k])
      && (forall k :: 0 <= k < |c.cols| ==> ScaleIndex(c.blockSize, c.cols[k]) == s.attributes.cols[k])
      && [c.nRows, input.shape[1]] == [call.outRows, call.outCols] == [s.outRows, s.outCols]
  {
    CheckedCall(t, denseShape);
    CreatorIndices(t.block);
  }

  // ---------------------------------------------------------------------
  // Non-square blocks

  /**
   * The driver as written accepts 1x2 blocks, but the C++ side scales
   * column indices by the row block size: the block stored at block column 1
   * starts at dense column 2, yet toPopSparse places it at column 1. The
   * checked driver rejects the tensor.
   */
  lemma NonSquareBlocksMisplaced()
    ensures var tile := Matrix(1, 2, [[5, 7]]);
      var m := BlockCoo(1, 2, 1, 2, [Entry(0, 1, tile)]);
      var t := SparseTensor(SparseCoo, 2, 2, true, m);
      var r := DynamicSpmmIpu(t, [4, 3]);
      && TensorOk(t) && Fits(m)
      && r.Ok?
      && var c := OpCreator(r.value.attributes);
        && ScaleIndex(c.blockSize, c.cols[0]) == 1
        && m.bc * m.entries[0].col == 2
        && DynamicSpmmIpuChecked(t, [4, 3]) == Err(NonSquareBlocks(1, 2))
  {
    var tile := Matrix(1, 2, [[5, 7]]);
    var m := BlockCoo(1, 2, 1, 2, [Entry(0, 1, tile)]);
    var t := SparseTensor(SparseCoo, 2, 2, true, m);
    assert Coalesced(m);
    var a := AttributesOf(m);
    assert a.blockSize == 1 && a.cols[0] == 1;
  }
}
