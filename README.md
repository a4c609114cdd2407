# Block-sparse matrix toolkit, char-LM batching and Criteo binary loading, in Dafny

This project models four parts of a collection of research notebooks and
proves properties of each. The modules follow the program's structure.

- **Dense** (`dense.dfy`): the dense matrices that the sparse code is
  compared against. This covers `Get`, `Build`, `Transpose` and `MatMul`
  over exact integers, plus the finite sums used in the proofs.
- **BlockCoo** (`block_coo.dfy`): the block-COO tensor, a
  `(blocks_row, blocks_col, block_size_row, block_size_col)` sparse COO
  tensor whose values are dense tiles. It models:
  - `coalesce`, as sorting by block key and summing duplicates;
  - `block_coo_transpose`;
  - `block_coo_to_dense`, with its rank check and its
    interleave-and-reshape of the dimensions.
- **Spmm** (`spmm.dfy`): the static sparse matmul.
  - The gather-multiply-scatter software path (`block_coo_spmm_gs`), in
    both modes, proved equal to the dense product.
  - The accelerator path (`block_coo_spmm_ipu`), up to the attributes it
    hands to the custom op.
  - The dispatching `block_coo_spmm`, `StaticSparseMatrix @`, `@` on the
    right, and `StaticSparseLinear.forward`.
- **Prune** (`prune.dfy`): `magnitude_prune`. It cuts a matrix into
  square tiles, scores them and keeps the `int(density * numel / bs²)`
  best as a coalesced block-COO tensor. A zero or negative block size is
  an error. The lemmas prove:
  - the result's structure;
  - that every kept tile scores at least as high as every dropped one;
  - that the stored values stay within the density;
  - that at density 1 the result densifies back to the matrix.
- **DynamicSparse** (`dynamic_sparse.dfy`): the dynamic sparse op.
  - The Python side, `dynamic_spmm_ipu`, up to the custom-op call.
  - The C++ side: the op creator's attribute conversions into `unsigned`
    and `size_t` (modelled with explicit wrap-around), `toPopSparse`'s
    index scaling (a method with a loop per index list), the
    sparsity-type choice, the matmul parameters, and the `CustomOp` class
    with its shape inference.
  - A lemma tying both sides to the static accelerator path.
- **CharData** (`char_data.dfy`): the char-LM data pipeline.
  - `CharVocab`: the char-to-index map, `str_to_ids`, `ids_to_str` with
    Python's negative indexing, and `len`. Round trips hold in both
    directions.
  - `Dataset` construction and `len`.
  - The seedless `Dataset.batch` generator, as a method with the source's
    accumulate-then-yield loop. It is proved against a specification that
    chunks the window starts into full batches.
- **Criteo** (`criteo.dfy`): the Criteo binary dataset utilities.
  - `_transform_features`: categorical ids modulo `max_ind_range` with
    Python's `%`, and labels as a column.
  - Little-endian int32 decoding, the `(-1, 40)` view and the column split.
  - The `CriteoBinDataset` class: its constructor's sizes, `__len__`, and
    `__getitem__` as a method that moves the file position.
- **Results** (`results.dfy`): the `Result` type. Each exception the
  source raises on an input the model can represent becomes an `Err`
  value with its own error constructor. A block-COO tensor always has
  four dimensions in all (`BlockCoo.TensorOk`), split between sparse and
  dense in any way; a split other than 2+2 is one of those errors.

Numbers are unbounded integers throughout. Where the source relies on a
fixed width, the width is written out: the C++ `unsigned` and `size_t`
conversions, and the int32 decoding.

## Model

| member | source | states |
|---|---|---|
| Dense.MatMulTranspose | sparsity_benchmarks/poptorch_static_sparse/poptorch_static_sparse_op.py:109 | for the dense_sparse mode: transposing the product of the transposes gives back `dense @ sparse`, (Aᵀ Bᵀ)ᵀ = B A for every pair of well-formed matrices of matching shape |
| Dense.MatMulTransposeAt | sparsity_benchmarks/poptorch_static_sparse/poptorch_static_sparse_op.py:109 | the entrywise form of the same identity at every in-range position |
| BlockCoo.BlockSumIndex | sparsity_benchmarks/poptorch_static_sparse/poptorch_static_sparse_op.py:49 | the dense value of a block position is the sum, over all stored entries, of the entries' contribution; to_dense adds up duplicate indices |
| BlockCoo.AbsentSum | sparsity_benchmarks/poptorch_static_sparse/poptorch_static_sparse_op.py:49 | a block position with no stored entry densifies to zero |
| BlockCoo.DistinctSum | sparsity_benchmarks/poptorch_static_sparse/poptorch_static_sparse_op.py:49 | when the keys are distinct, each stored tile is exactly what densifies at its block position |
| BlockCoo.SortedSum | sparsity_benchmarks/poptorch_static_sparse/poptorch_static_sparse_op.py:31 | in a coalesced (sorted, duplicate-free) index list, each stored tile is exactly what densifies at its block position |
| BlockCoo.DistinctKeysCount | sparsity_benchmarks/poptorch_static_sparse/poptorch_static_sparse_op.py:31 | distinct keys: the number of stored blocks equals the number of occupied positions |
| BlockCoo.InsertSorted | sparsity_benchmarks/poptorch_static_sparse/poptorch_static_sparse_op.py:31 | inserting one entry into a sorted list keeps it sorted and adds exactly that entry's key to the key set |
| BlockCoo.InsertShaped | sparsity_benchmarks/poptorch_static_sparse/poptorch_static_sparse_op.py:31 | inserting a correctly shaped tile keeps every tile correctly shaped |
| BlockCoo.InsertSum | sparsity_benchmarks/poptorch_static_sparse/poptorch_static_sparse_op.py:31 | inserting an entry adds its tile at its own block position and changes no other position (duplicates are summed) |
| BlockCoo.Coalesce | sparsity_benchmarks/poptorch_static_sparse/poptorch_static_sparse_op.py:31 | coalesce yields a sorted, duplicate-free list with the same key set and no more entries than it was given |
| BlockCoo.CoalesceBlocks | sparsity_benchmarks/poptorch_static_sparse/poptorch_static_sparse_op.py:31 | coalesce keeps the tile shape and does not change the densified value at any position |
| BlockCoo.InGridKeys | sparsity_benchmarks/poptorch_static_sparse/poptorch_static_sparse_op.py:31 | a list whose keys are a subset of an in-grid list's keys is in the grid too |
| BlockCoo.SortedUnique | sparsity_benchmarks/poptorch_static_sparse/poptorch_static_sparse_op.py:31 | two sorted lists of the same shape with the same keys and the same values at every position are equal: the coalesced form is unique |
| BlockCoo.CoalesceDistinct | sparsity_benchmarks/poptorch_static_sparse/poptorch_static_sparse_op.py:31 | coalescing entries that have distinct keys only reorders them: same length, and every result entry is one of the inputs |
| BlockCoo.CoalesceIdempotent | sparsity_benchmarks/poptorch_static_sparse/poptorch_static_sparse_op.py:31 | coalescing an already coalesced list changes nothing |
| BlockCoo.SwapAllFacts | sparsity_benchmarks/poptorch_static_sparse/poptorch_static_sparse_op.py:31 | permute(1, 0, 3, 2) on the entries: the grid and tile shape swap, the keys are swapped, and each value moves to the mirrored position |
| BlockCoo.SwapKeys | sparsity_benchmarks/poptorch_static_sparse/poptorch_static_sparse_op.py:31 | the swapped entries occupy exactly the swapped keys |
| BlockCoo.Interleave | sparsity_benchmarks/poptorch_static_sparse/poptorch_static_sparse_op.py:45 | the permutation (0, rank, 1, rank + 1, ...) places each block dimension right before its tile dimension, and every element is a valid dimension |
| BlockCoo.Permute | sparsity_benchmarks/poptorch_static_sparse/poptorch_static_sparse_op.py:49 | permuting a shape gives, at each position, the dimension the permutation names |
| BlockCoo.MergePairs | sparsity_benchmarks/poptorch_static_sparse/poptorch_static_sparse_op.py:47 | reshaping merges each adjacent (blocks, block size) pair into their product |
| BlockCoo.DenseShape | sparsity_benchmarks/poptorch_static_sparse/poptorch_static_sparse_op.py:34-49 | the dense shape is an error exactly when sparse_dim differs from dense_dim; otherwise it has rank sparse_dim, and dimension d is blocks[d] * block_size[d] |
| BlockCoo.ToDense | sparsity_benchmarks/poptorch_static_sparse/poptorch_static_sparse_op.py:47-49 | the dense matrix of a block-COO matrix has (rows * br) x (cols * bc) elements |
| BlockCoo.BlockCooToDense | sparsity_benchmarks/poptorch_static_sparse/poptorch_static_sparse_op.py:34-49 | for a four-dimensional block tensor: fails exactly when sparse_dim != dense_dim; otherwise the shape is the one the interleave-and-reshape computes, (rows * br, cols * bc), and element (i, j) is the sum of the stored tiles' (i % br, j % bc) element at block (i / br, j / bc) |
| BlockCoo.ToDenseCoalesced | sparsity_benchmarks/poptorch_static_sparse/poptorch_static_sparse_op.py:34-49 | for a coalesced matrix, element (i, j) is the stored tile's element at the block that holds (i, j), or zero when that block is not stored |
| BlockCoo.BlockCooTranspose | sparsity_benchmarks/poptorch_static_sparse/poptorch_static_sparse_op.py:29-31 | the transpose swaps the grid and tile dimensions, is coalesced, and holds exactly the swapped keys |
| BlockCoo.TransposeBlocks | sparsity_benchmarks/poptorch_static_sparse/poptorch_static_sparse_op.py:29-31 | the transpose of a valid matrix is valid, and its value at the mirrored block and offset equals the original's |
| BlockCoo.TransposeToDense | sparsity_benchmarks/poptorch_static_sparse/poptorch_static_sparse_op.py:29-31 | densifying the transpose gives the transpose of the densified matrix |
| BlockCoo.TransposeInvolution | sparsity_benchmarks/poptorch_static_sparse/poptorch_static_sparse_op.py:29-31 | transposing a coalesced matrix twice gives it back |
| BlockCoo.TransposeEntry | sparsity_benchmarks/poptorch_static_sparse/poptorch_static_sparse_op.py:29-31 | every stored entry of a coalesced matrix appears, swapped, in its transpose |
| Spmm.Gather | sparsity_benchmarks/poptorch_static_sparse/poptorch_static_sparse_op.py:98 | the gather step takes one bc x batch slice of the dense operand per stored block |
| Spmm.RowIndices | sparsity_benchmarks/poptorch_static_sparse/poptorch_static_sparse_op.py:89 | the scatter index of entry k is its block row |
| Spmm.ColIndices | sparsity_benchmarks/poptorch_static_sparse/poptorch_static_sparse_op.py:149 | the column index list holds each entry's block column, in entry order |
| Spmm.Products | sparsity_benchmarks/poptorch_static_sparse/poptorch_static_sparse_op.py:100 | the multiply step yields one tile @ slice product per stored block, each defined because the tile's width equals the slice's height |
| Spmm.ScatterAdd | sparsity_benchmarks/poptorch_static_sparse/poptorch_static_sparse_op.py:102-106 | scatter_add keeps the number of output block rows |
| Spmm.ScatterAddSpec | sparsity_benchmarks/poptorch_static_sparse/poptorch_static_sparse_op.py:102-106 | after scatter_add, output block row r at (a, b) is its initial value plus the sum of the products whose index is r |
| Spmm.ScatterAddShapes | sparsity_benchmarks/poptorch_static_sparse/poptorch_static_sparse_op.py:102-106 | scatter_add keeps the shape of every output block row |
| Spmm.View | sparsity_benchmarks/poptorch_static_sparse/poptorch_static_sparse_op.py:107 | the view of the block rows as one matrix has (block rows * block size) x batch elements |
| Spmm.GatherMultiplyScatter | sparsity_benchmarks/poptorch_static_sparse/poptorch_static_sparse_op.py:97-107 | gather, multiply, scatter_add into zeros, then view; no ensures of its own: GatherMultiplyScatterCorrect states that it equals ToDense(lhs) @ rhs whenever the sizes match |
| Spmm.ViewAt | sparsity_benchmarks/poptorch_static_sparse/poptorch_static_sparse_op.py:107 | element (i, b) of the view is element (i % block size, b) of block row i / block size |
| Spmm.Accumulate | sparsity_benchmarks/poptorch_static_sparse/poptorch_static_sparse_op.py:102-106 | the accumulator holds one block row per sparse block row |
| Spmm.AccumulateAt | sparsity_benchmarks/poptorch_static_sparse/poptorch_static_sparse_op.py:97-106 | accumulator row r is the sum over the entries of the block products scattered to r, starting from zeros |
| Spmm.GmsElement | sparsity_benchmarks/poptorch_static_sparse/poptorch_static_sparse_op.py:97-107 | each output element of gather-multiply-scatter is a sum, over the stored blocks, of that block's contribution to the row |
| Spmm.GmsTerm | sparsity_benchmarks/poptorch_static_sparse/poptorch_static_sparse_op.py:97-107 | each scattered product term equals the block's contribution to that output element |
| Spmm.DenseDoubleSum | sparsity_benchmarks/poptorch_static_sparse/poptorch_static_sparse_op.py:34-49 | an element of the dense product is a double sum over dense columns and stored blocks |
| Spmm.DenseColumnTerm | sparsity_benchmarks/poptorch_static_sparse/poptorch_static_sparse_op.py:34-49 | one dense-product term is the sum of the per-block terms |
| Spmm.DenseEntrySum | sparsity_benchmarks/poptorch_static_sparse/poptorch_static_sparse_op.py:34-49 | summing one block's terms over all dense columns gives that block's row contribution |
| Spmm.DenseElement | sparsity_benchmarks/poptorch_static_sparse/poptorch_static_sparse_op.py:34-49 | an element of ToDense(lhs) @ rhs is the same per-block sum that gather-multiply-scatter computes |
| Spmm.GatherMultiplyScatterCorrect | sparsity_benchmarks/poptorch_static_sparse/poptorch_static_sparse_op.py:86-107 | gather-multiply-scatter equals the dense product ToDense(lhs) @ rhs whenever the sizes match |
| Spmm.SparseDenseGs | sparsity_benchmarks/poptorch_static_sparse/poptorch_static_sparse_op.py:86-107 | the size check fails exactly when the dense rows differ from blocks_in * block_size_in; otherwise the result is ToDense(lhs) @ rhs |
| Spmm.BlockCooSpmmGs | sparsity_benchmarks/poptorch_static_sparse/poptorch_static_sparse_op.py:67-109 | fails exactly on a non-COO layout, an unknown mode, a tensor without exactly two sparse dimensions (its indices do not unpack, or the transpose's permute fails), an uncoalesced tensor in sparse_dense mode, or a size mismatch; otherwise sparse_dense gives ToDense(S) @ D and dense_sparse gives D @ ToDense(S) |
| Spmm.Scale | sparsity_benchmarks/poptorch_static_sparse/poptorch_static_sparse_op.py:167-168 | the attribute indices are block indices times the block size, element by element |
| Spmm.ConcatAt | sparsity_benchmarks/poptorch_static_sparse/poptorch_static_sparse_op.py:150 | flattening rows of equal width puts row a's element b at a * width + b |
| Spmm.ConcatLength | sparsity_benchmarks/poptorch_static_sparse/poptorch_static_sparse_op.py:150 | flattening rows of equal width gives rows * width elements |
| Spmm.FlattenTilesLength | sparsity_benchmarks/poptorch_static_sparse/poptorch_static_sparse_op.py:150 | flattening the stored values gives entries * br * bc numbers |
| Spmm.FlattenAt | sparsity_benchmarks/poptorch_static_sparse/poptorch_static_sparse_op.py:150 | element p of tile k sits at k * n + p of the flattened values |
| Spmm.FlattenFrom | sparsity_benchmarks/poptorch_static_sparse/poptorch_static_sparse_op.py:150 | the same, with the offset of tile k given |
| Spmm.FlattenTilesAt | sparsity_benchmarks/poptorch_static_sparse/poptorch_static_sparse_op.py:150 | element (a, b) of tile k sits at (k * br + a) * bc + b of the flattened values |
| Spmm.BlockCooSpmmIpu | sparsity_benchmarks/poptorch_static_sparse/poptorch_static_sparse_op.py:112-171 | fails exactly on a bad mode, a non-COO layout, a tensor that is not 2+2 dimensional, non-square blocks, a dense operand that is not 2D, or an uncoalesced tensor, and the contract pins the error of each case, taking the checks in the source's order; otherwise gives the output shape per mode, n_rows, n_cols, block_size, the element-scaled rows and cols, and entries * B² values |
| Spmm.IpuValuesAt | sparsity_benchmarks/poptorch_static_sparse/poptorch_static_sparse_op.py:150-169 | values[(k * B + a) * B + b] is element (a, b) of stored tile k |
| Spmm.IpuShapeMatchesGs | sparsity_benchmarks/poptorch_static_sparse/poptorch_static_sparse_op.py:144-147 | when both paths accept their input, the IPU output shape equals the shape of the gather-multiply-scatter result |
| Spmm.BlockCooSpmm | sparsity_benchmarks/poptorch_static_sparse/poptorch_static_sparse_op.py:52-64 | on the IPU it fails exactly when block_coo_spmm_ipu fails, with its error, and otherwise offloads exactly the call that path builds; off the IPU it fails exactly when block_coo_spmm_gs fails, with its error, and otherwise a success means the sizes match and the result is the dense product for the mode |
| Spmm.StaticSparseMatMul | sparsity_benchmarks/poptorch_static_sparse/poptorch_static_sparse_op.py:184-185 | matrix @ rhs: off the IPU it fails exactly on a non-COO or uncoalesced matrix, one without two sparse dimensions, or rhs rows != cols * bc, and otherwise gives ToDense(matrix) @ rhs; on the IPU it fails exactly when the sparse_dense accelerator path fails, and otherwise offloads that path's call |
| Spmm.StaticSparseRMatMul | sparsity_benchmarks/poptorch_static_sparse/poptorch_static_sparse_op.py:187-188 | lhs @ matrix: off the IPU it fails exactly on a non-COO matrix, one without two sparse dimensions, or lhs cols != rows * br, and otherwise gives lhs @ ToDense(matrix); on the IPU it fails exactly when the dense_sparse accelerator path fails, and otherwise offloads that path's call |
| Spmm.StaticSparseLinearForward | sparsity_benchmarks/poptorch_static_sparse/poptorch_static_sparse_op.py:201-202 | the forward pass fails exactly on a non-COO or uncoalesced weight, a weight without two sparse dimensions, or a feature-size mismatch; otherwise it is x @ ToDense(W)ᵀ |
| Prune.TruncDiv | sparsity_benchmarks/poptorch_static_sparse/poptorch_static_sparse_op.py:224 | int() of a quotient truncates toward zero: q * y lies between 0 and x, within one y of x |
| Prune.BlockCount | sparsity_benchmarks/poptorch_static_sparse/poptorch_static_sparse_op.py:224 | int(density * numel / bs²) with truncation toward zero; no ensures of its own: KeptWithinDensity bounds it by density * numel and FullDensityCount gives the number of blocks at density 1 |
| Prune.DivBounds | sparsity_benchmarks/poptorch_static_sparse/poptorch_static_sparse_op.py:218-220 | floor division by the block size: (x // y) * y <= x < (x // y) * y + y |
| Prune.Tile | sparsity_benchmarks/poptorch_static_sparse/poptorch_static_sparse_op.py:217-222 | tile (p, q) of the reshaped matrix is the bs x bs square at rows p * bs.. and columns q * bs.. |
| Prune.Scores | sparsity_benchmarks/poptorch_static_sparse/poptorch_static_sparse_op.py:223 | there is one score per block, nbr * nbc of them, in row-major block order |
| Prune.ScoresAt | sparsity_benchmarks/poptorch_static_sparse/poptorch_static_sparse_op.py:223 | score p * nbc + q is the score of tile (p, q) |
| Prune.Range | sparsity_benchmarks/poptorch_static_sparse/poptorch_static_sparse_op.py:225 | the candidate indices 0 .. n - 1 |
| Prune.InsertDesc | sparsity_benchmarks/poptorch_static_sparse/poptorch_static_sparse_op.py:225 | inserting one index into a descending order adds exactly one element |
| Prune.SortDesc | sparsity_benchmarks/poptorch_static_sparse/poptorch_static_sparse_op.py:225 | sorting indices by score keeps their number |
| Prune.InsertDescFacts | sparsity_benchmarks/poptorch_static_sparse/poptorch_static_sparse_op.py:225 | inserting into a descending order gives a descending permutation of the order plus the new index |
| Prune.InsertDescMultiset | sparsity_benchmarks/poptorch_static_sparse/poptorch_static_sparse_op.py:225 | insertion adds the new index to the multiset and nothing else |
| Prune.InsertDescOrder | sparsity_benchmarks/poptorch_static_sparse/poptorch_static_sparse_op.py:225 | insertion keeps the order descending and in range, and its head is the new index or the old head |
| Prune.InsertAtFront | sparsity_benchmarks/poptorch_static_sparse/poptorch_static_sparse_op.py:225 | an index scoring above the head may be put in front |
| Prune.KeepFront | sparsity_benchmarks/poptorch_static_sparse/poptorch_static_sparse_op.py:225 | an index scoring at least the head's score may be put in front |
| Prune.SortDescFacts | sparsity_benchmarks/poptorch_static_sparse/poptorch_static_sparse_op.py:225 | sorting gives a permutation of the indices, in range and in descending score order |
| Prune.RangeCounts | sparsity_benchmarks/poptorch_static_sparse/poptorch_static_sparse_op.py:225 | every candidate index occurs exactly once |
| Prune.MultisetDistinct | sparsity_benchmarks/poptorch_static_sparse/poptorch_static_sparse_op.py:225 | an index list with no repeated element is distinct |
| Prune.TopK | sparsity_benchmarks/poptorch_static_sparse/poptorch_static_sparse_op.py:225 | topk returns k indices |
| Prune.TopKIsTopK | sparsity_benchmarks/poptorch_static_sparse/poptorch_static_sparse_op.py:225 | topk's result holds k distinct valid indices in descending score order, and no left-out index scores above a chosen one |
| Prune.SortedOrder | sparsity_benchmarks/poptorch_static_sparse/poptorch_static_sparse_op.py:225 | sorting all indices gives a distinct, in-range, descending order containing every index |
| Prune.PrefixIsTopK | sparsity_benchmarks/poptorch_static_sparse/poptorch_static_sparse_op.py:225 | the first k indices of such an order are a top-k selection |
| Prune.TopKBeats | sparsity_benchmarks/poptorch_static_sparse/poptorch_static_sparse_op.py:225 | every chosen index scores at least as high as every left-out one |
| Prune.Picked | sparsity_benchmarks/poptorch_static_sparse/poptorch_static_sparse_op.py:226-229 | one entry per selected flat index |
| Prune.FromSelection | sparsity_benchmarks/poptorch_static_sparse/poptorch_static_sparse_op.py:226-231 | stacks the selected flat indices into (idx // nbc, idx % nbc) keys, gathers those tiles and coalesces; no ensures of its own: SelectionFacts, SelectionEntries, SelectionTiles and SelectionTopK state its result |
| Prune.KeepBest | sparsity_benchmarks/poptorch_static_sparse/poptorch_static_sparse_op.py:223-231 | scores every tile, takes a top-nnz selection and builds the tensor from it; no ensures of its own: PruneSelection shows it is FromSelection of a top-k selection |
| Prune.PickedAt | sparsity_benchmarks/poptorch_static_sparse/poptorch_static_sparse_op.py:226-229 | the entry for flat index f sits at block (f // nbc, f % nbc) inside the grid and holds that tile |
| Prune.PickedDistinct | sparsity_benchmarks/poptorch_static_sparse/poptorch_static_sparse_op.py:226-229 | distinct flat indices give distinct in-grid keys and square tiles |
| Prune.SelectionEntries | sparsity_benchmarks/poptorch_static_sparse/poptorch_static_sparse_op.py:226-231 | the coalesced result has one entry per selected index, is sorted and in the grid, has the selected keys, and every entry is one of the picked entries |
| Prune.SelectionFacts | sparsity_benchmarks/poptorch_static_sparse/poptorch_static_sparse_op.py:226-231 | the pruned tensor is a valid coalesced 2+2 block tensor, and every stored tile is the matrix's tile at that block |
| Prune.SelectionTiles | sparsity_benchmarks/poptorch_static_sparse/poptorch_static_sparse_op.py:226-231 | every stored tile is the matrix's tile at its own block position |
| Prune.SelectionTopK | sparsity_benchmarks/poptorch_static_sparse/poptorch_static_sparse_op.py:223-231 | every kept tile scores at least as high as every dropped in-grid tile |
| Prune.SelectionMiss | sparsity_benchmarks/poptorch_static_sparse/poptorch_static_sparse_op.py:226 | a block position that was not picked has a flat index that was not selected |
| Prune.KeptBeatsDropped | sparsity_benchmarks/poptorch_static_sparse/poptorch_static_sparse_op.py:223-231 | each single kept tile scores at least as high as each single dropped in-grid tile |
| Prune.PruneFails | sparsity_benchmarks/poptorch_static_sparse/poptorch_static_sparse_op.py:217-225 | magnitude_prune fails exactly on a block size that is not positive (zero divides by zero; a negative one gives the reshape a negative dimension), a reshape that would lose elements, a negative block count, or more blocks requested than exist |
| Prune.MagnitudePrune | sparsity_benchmarks/poptorch_static_sparse/poptorch_static_sparse_op.py:205-231 | no ensures of its own: PruneFails states exactly when it fails, PruneSelection/PruneStructure/PruneTiles what it returns, PruneKeepsBest and PruneWithinDensity the docstring's promises, FullDensityRoundTrip the density-1 round trip |
| Prune.ReshapeWhole | sparsity_benchmarks/poptorch_static_sparse/poptorch_static_sparse_op.py:217-222 | for a non-empty matrix the reshape keeps every element exactly when the block size divides both dimensions; an empty matrix always reshapes |
| Prune.PruneSelection | sparsity_benchmarks/poptorch_static_sparse/poptorch_static_sparse_op.py:217-231 | a successful prune is the coalesced tensor of some top-k selection of the block scores, with k = int(density * numel / bs²) |
| Prune.PruneStructure | sparsity_benchmarks/poptorch_static_sparse/poptorch_static_sparse_op.py:214-231 | the result is a coalesced COO tensor of shape (blocks_row, blocks_col, bs, bs) that stores exactly the computed number of blocks |
| Prune.PruneTiles | sparsity_benchmarks/poptorch_static_sparse/poptorch_static_sparse_op.py:226-229 | every stored block is the original matrix's tile at that position |
| Prune.PruneKeepsBest | sparsity_benchmarks/poptorch_static_sparse/poptorch_static_sparse_op.py:210-225 | the blocks kept have the largest scores: none scores below any dropped block |
| Prune.KeptWithinDensity | sparsity_benchmarks/poptorch_static_sparse/poptorch_static_sparse_op.py:224 | the truncated block count times bs² is at most density * numel |
| Prune.PruneWithinDensity | sparsity_benchmarks/poptorch_static_sparse/poptorch_static_sparse_op.py:210-212 | the stored values of the result are at most density times the matrix's element count |
| Prune.DistinctCovers | sparsity_benchmarks/poptorch_static_sparse/poptorch_static_sparse_op.py:225 | a distinct selection of all n indices contains every index |
| Prune.DistinctCard | sparsity_benchmarks/poptorch_static_sparse/poptorch_static_sparse_op.py:225 | a distinct selection has as many elements as its length |
| Prune.FullSelectionHas | sparsity_benchmarks/poptorch_static_sparse/poptorch_static_sparse_op.py:226-231 | when every block is selected, every block position has its stored tile |
| Prune.FullSelectionAt | sparsity_benchmarks/poptorch_static_sparse/poptorch_static_sparse_op.py:226-231 | when every block is selected, the densified result agrees with the matrix at every element |
| Prune.StoredTileAt | sparsity_benchmarks/poptorch_static_sparse/poptorch_static_sparse_op.py:34-49 | the densified element of a position whose block holds the matrix's tile is the matrix's element |
| Prune.FullDensityCount | sparsity_benchmarks/poptorch_static_sparse/poptorch_static_sparse_op.py:224 | for a matrix of whole blocks at density 1, the block count is the number of blocks |
| Prune.FullSelectionDense | sparsity_benchmarks/poptorch_static_sparse/poptorch_static_sparse_op.py:226-231 | selecting every block and densifying gives back the matrix |
| Prune.FullDensityRoundTrip | sparsity_benchmarks/poptorch_static_sparse/poptorch_static_sparse_op.py:205-231 | at density 1 pruning a matrix of whole blocks succeeds, and densifying the result gives back the matrix |
| DynamicSparse.AsInts | sparsity_benchmarks/poptorch_dynamic_sparse/poptorch_dynamic_sparse_op.py:41-42 | the index lists pass to the attributes unchanged |
| DynamicSparse.DynamicSpmmIpu | sparsity_benchmarks/poptorch_dynamic_sparse/poptorch_dynamic_sparse_op.py:13-45 | as written: fails exactly when the tensor is not a coalesced COO with 2 sparse and at least 2 dense dimensions, the dense operand has rank below 2, or dense rows != n_cols (a column mismatch); otherwise output (n_rows, batch) with n_rows, n_cols, block_size = shape[2], the unscaled block indices, and the tiles flattened in storage order as values |
| DynamicSparse.DynamicValuesAt | sparsity_benchmarks/poptorch_dynamic_sparse/poptorch_dynamic_sparse_op.py:15 | values holds entries * br * bc numbers, and element (a, b) of the k-th stored tile is at (k * br + a) * bc + b |
| DynamicSparse.DynamicSpmmIpuChecked | sparsity_benchmarks/poptorch_dynamic_sparse/poptorch_dynamic_sparse_op.py:16-22 | the corrected call: also fails on non-square blocks, and otherwise agrees with the call as written |
| DynamicSparse.CheckedCall | sparsity_benchmarks/poptorch_dynamic_sparse/poptorch_dynamic_sparse_op.py:13-45 | a successful corrected call means the tensor and the shapes pass every check, and the call holds (n_rows, batch) and the attributes of the matrix |
| DynamicSparse.ToU32 | sparsity_benchmarks/poptorch_dynamic_sparse/libpoptorch_dynamic_sparse_op.cpp:166-172 | the Int attribute converted to unsigned is congruent to it modulo 2³², and is unchanged when it fits |
| DynamicSparse.ToU64 | sparsity_benchmarks/poptorch_dynamic_sparse/libpoptorch_dynamic_sparse_op.cpp:172-174 | converting an index to size_t is congruent modulo 2⁶⁴, and leaves it unchanged when it fits |
| DynamicSparse.ToU32Exact | sparsity_benchmarks/poptorch_dynamic_sparse/libpoptorch_dynamic_sparse_op.cpp:172 | a value that fits in 32 bits passes through unchanged |
| DynamicSparse.ToU64Exact | sparsity_benchmarks/poptorch_dynamic_sparse/libpoptorch_dynamic_sparse_op.cpp:173-174 | a value that fits in 64 bits passes through unchanged |
| DynamicSparse.AllToU64 | sparsity_benchmarks/poptorch_dynamic_sparse/libpoptorch_dynamic_sparse_op.cpp:173-174 | the index vectors are converted element by element |
| DynamicSparse.OpCreator | sparsity_benchmarks/poptorch_dynamic_sparse/libpoptorch_dynamic_sparse_op.cpp:165-176 | the op creator builds a well-typed matrix with as many indices as given and the same values; every field that fits its C++ type is unchanged |
| DynamicSparse.ScaleIndices | sparsity_benchmarks/poptorch_dynamic_sparse/libpoptorch_dynamic_sparse_op.cpp:58-63 | the transform multiplies each block index by blockSize modulo 2⁶⁴, in order |
| DynamicSparse.ToPopSparse | sparsity_benchmarks/poptorch_dynamic_sparse/libpoptorch_dynamic_sparse_op.cpp:55-65 | toPopSparse keeps the values, uses square blockSize x blockSize blocks, and scales both index lists by blockSize |
| DynamicSparse.ScaleIndexExact | sparsity_benchmarks/poptorch_dynamic_sparse/libpoptorch_dynamic_sparse_op.cpp:60 | a scaled index that fits in 64 bits is the exact product |
| DynamicSparse.SparsityOf | sparsity_benchmarks/poptorch_dynamic_sparse/libpoptorch_dynamic_sparse_op.cpp:80-83 | element sparsity exactly when the block size is 1, block sparsity otherwise |
| DynamicSparse.ParamsOf | sparsity_benchmarks/poptorch_dynamic_sparse/libpoptorch_dynamic_sparse_op.cpp:80-86 | the matmul parameters carry the sparsity type, the number of values, one group, nRows, nCols and the batch size |
| DynamicSparse.CustomOp.constructor | sparsity_benchmarks/poptorch_dynamic_sparse/libpoptorch_dynamic_sparse_op.cpp:124-127 | the op holds the matrix it was created with |
| DynamicSparse.CustomOp.Setup | sparsity_benchmarks/poptorch_dynamic_sparse/libpoptorch_dynamic_sparse_op.cpp:134-137 | shape inference gives the input's data type and the shape (nRows, input.dim(1)) |
| DynamicSparse.IndexFits | sparsity_benchmarks/poptorch_dynamic_sparse/libpoptorch_dynamic_sparse_op.cpp:58-63 | a block index below n, with n * b in 32 bits, scales without overflow |
| DynamicSparse.CreatorIndices | sparsity_benchmarks/poptorch_dynamic_sparse/libpoptorch_dynamic_sparse_op.cpp:55-65 | for small, square-block matrices the C++ side sees n_rows, n_cols, the block size and, after scaling, element indices blockSize * block index, and as many values as entries * B² |
| DynamicSparse.CreatorIndexAt | sparsity_benchmarks/poptorch_dynamic_sparse/libpoptorch_dynamic_sparse_op.cpp:58-63 | the same, for one entry |
| DynamicSparse.DynamicAgreesWithStaticIpu | sparsity_benchmarks/poptorch_dynamic_sparse/libpoptorch_dynamic_sparse_op.cpp:55-65 | with square blocks, the dynamic op's C++ side ends up with the same sizes, element indices and output shape as the static IPU call |
| DynamicSparse.NonSquareBlocksMisplaced | sparsity_benchmarks/poptorch_dynamic_sparse/poptorch_dynamic_sparse_op.py:16-18 | a 1x2 tile at block column 1 passes the unchecked call, and the C++ side places it at element column 1 instead of 2; the corrected call refuses it |
| CharData.CharToIdx | moe_charlm/data.py:15 | the map's keys are exactly the vocabulary characters, and each maps to the last position holding it |
| CharData.VocabLen | moe_charlm/data.py:28-29 | len(vocab) is the number of vocabulary entries |
| CharData.Encode | moe_charlm/data.py:22-23 | lookup succeeds exactly when every character is a key, giving one id per character; otherwise a KeyError names the first missing character of the text: every character before it is a key |
| CharData.StrToIds | moe_charlm/data.py:22-23 | str_to_ids succeeds exactly when every character is in the vocabulary, with one id per character naming a position holding it; otherwise a KeyError |
| CharData.IdsToStr | moe_charlm/data.py:25-26 | ids_to_str succeeds exactly when every id is a valid Python index (negative ids count from the end), giving the characters at those positions; otherwise an IndexError |
| CharData.DecodeEncode | moe_charlm/data.py:22-26 | decoding the ids of a text gives the text back |
| CharData.EncodeDecode | moe_charlm/data.py:22-26 | with distinct characters, encoding the decoded ids gives each id back, normalised to non-negative |
| CharData.EncodeDecodeExact | moe_charlm/data.py:22-26 | with distinct characters and non-negative ids, encoding the decoded ids is the identity |
| CharData.DuplicateLosesId | moe_charlm/data.py:15 | with a repeated character, id 0 decodes to 'a' but 'a' encodes to 1 |
| CharData.NewDataset | moe_charlm/data.py:35-41 | building a dataset succeeds exactly when the text encodes; it keeps the vocabulary and one id per character, and the ids decode back to the text |
| CharData.DatasetLen | moe_charlm/data.py:85-86 | len(dataset) is the number of ids |
| CharData.RangeFacts | moe_charlm/data.py:59 | range(lo, hi, step): element i is lo + i * step and below hi, and the range stops at the first value at or above hi |
| CharData.Starts | moe_charlm/data.py:59 | the seedless starts range(0, len(data) - L, shift); no ensures of its own: StartAt gives start j == j * shift below len(data) - L, RangeFacts the count |
| CharData.StartAt | moe_charlm/data.py:59 | start j is j * shift, and each start leaves room for a window and its shifted target |
| CharData.Slice | moe_charlm/data.py:79-80 | Python slicing: within bounds it has hi - lo elements, or none when hi <= lo, and element k is data[lo + k] |
| CharData.WindowFacts | moe_charlm/data.py:79-80 | x is data[start..start + length], y is the same window shifted by one, and y[i] == x[i + 1] |
| CharData.Mask | moe_charlm/data.py:68 | the mask has sequence_length elements, 1 exactly at the positions at or past overlap_length and 0 before it |
| CharData.Windows | moe_charlm/data.py:79-80 | one window per start |
| CharData.MakeBatch | moe_charlm/data.py:71-75 | a stacked batch has as many x, y and mask rows as windows |
| CharData.WindowsSnoc | moe_charlm/data.py:79-81 | appending a window adds exactly its slice to the list |
| CharData.AddRow | moe_charlm/data.py:79-83 | one step of the loop appends x, y and the mask to the three accumulators |
| CharData.BatchesOfCount | moe_charlm/data.py:69-83 | the number of batches yielded is (number of starts - 1) // batch_size: the last batch, even a full one, is never yielded |
| CharData.BatchesOfChunk | moe_charlm/data.py:70-78 | batch b is starts[b * size..(b + 1) * size] |
| CharData.ChunkAt | moe_charlm/data.py:70-78 | row k of batch b is start b * size + k |
| CharData.ChunkedSnoc | moe_charlm/data.py:70-78 | yielding a full accumulator keeps the yielded batches an exact chunking of the starts seen so far |
| CharData.ChunkedBatches | moe_charlm/data.py:69-83 | batches of exactly batch_size whose concatenation is the starts before the open accumulator are the batches the loop yields |
| CharData.MakeBatches | moe_charlm/data.py:71-75 | one stacked batch per chunk |
| CharData.MakeBatchesSnoc | moe_charlm/data.py:70-78 | stacking one more chunk appends exactly its batch |
| CharData.BatchRowsOf | moe_charlm/data.py:59-83 | row k of yielded batch b is the window at start b * batch_size + k, its shifted target, and the mask |
| CharData.BatchRows | moe_charlm/data.py:56-83 | without a seed, row k of batch b is data[s..s + length] with s = (b * batch_size + k) * shift, its target is shifted by one, and its mask is the mask |
| CharData.Batches | moe_charlm/data.py:49-83 | the seedless batch(): fails exactly on a zero step (ZeroStep, range()), a negative length (NegativeLength, arange) or batch size 0 with some start (EmptyStack, stack); any other batch size of 0 or below yields nothing; a positive one yields MakeBatches of the starts chunked into full batches |
| CharData.StackBatches | moe_charlm/data.py:65-83 | the loop fails exactly on batch size 0 with a start to stack (EmptyStack); otherwise a batch size of 0 or below yields nothing, and a positive one yields every full batch before the last start, in order, as stacked windows |
| Criteo.Remainder | compressed_DLRM/utils.py:56-57 | Python's % by a positive modulus: in [0, m), congruent to the input, and the identity on [0, m) |
| Criteo.ReduceIds | compressed_DLRM/utils.py:56-57 | every categorical id is reduced modulo max_ind_range, keeping the batch's shape |
| Criteo.LabelColumn | compressed_DLRM/utils.py:62-68 | view(-1, 1) turns the labels into a column, one single-element row per label |
| Criteo.LabelColumnKeepsOrder | compressed_DLRM/utils.py:62-68 | the column has one row per label, each holding that label, in order |
| Criteo.TransformFeatures | compressed_DLRM/utils.py:50-68 | the dense features are passed on, the categorical batch keeps its size, and the labels become a column |
| Criteo.TransformedIds | compressed_DLRM/utils.py:55-57 | with max_ind_range <= 0 the categorical ids are unchanged; otherwise each is in [0, max_ind_range) and congruent to the original |
| Criteo.TransformIdempotent | compressed_DLRM/utils.py:55-57 | transforming the categorical ids twice is the same as once |
| Criteo.Int32At | compressed_DLRM/utils.py:107 | a decoded int32 lies in the signed 32-bit range |
| Criteo.Int32Bytes4 | compressed_DLRM/utils.py:107 | an int32 is 4 bytes |
| Criteo.Int32RoundTrip | compressed_DLRM/utils.py:107 | decoding the 4 little-endian bytes of an int32 gives it back |
| Criteo.DecodeInt32s | compressed_DLRM/utils.py:107 | frombuffer succeeds exactly when the byte count is a multiple of 4, with value k decoded from bytes 4k..4k + 3 |
| Criteo.Records | compressed_DLRM/utils.py:108 | view(-1, 40) succeeds exactly when the count is a multiple of 40, giving rows of 40 values |
| Criteo.RecordAt | compressed_DLRM/utils.py:108 | element c of row i is value i * 40 + c |
| Criteo.SplitColumns | compressed_DLRM/utils.py:110-116 | the three column groups have one row per record |
| Criteo.DecodeEntry | compressed_DLRM/utils.py:107-116 | a decoded entry has one label per 160 bytes |
| Criteo.DecodeEntryDefined | compressed_DLRM/utils.py:107-108 | decoding succeeds exactly when the bytes hold whole 40-value records |
| Criteo.DecodeEntryAt | compressed_DLRM/utils.py:107-116 | row r has label column 0, the 13 dense values from columns 1..13 and the 26 categorical ids from columns 14..39, reduced as configured |
| Criteo.DecodedCount | compressed_DLRM/utils.py:107-108 | for 40 * p bytes, decoding succeeds exactly when p is a multiple of 4, with p / 4 rows |
| Criteo.WholeRecords | compressed_DLRM/utils.py:91 | 40 * p is a multiple of 160 exactly when p is a multiple of 4 |
| Criteo.ReadBytes | compressed_DLRM/utils.py:106 | read returns the requested bytes when they are in the file, and never more than requested |
| Criteo.CriteoBinDataset.constructor | compressed_DLRM/utils.py:74-99 | the dataset keeps its arguments, bytes_per_entry = bytes_per_feature * 40 * batch_size, num_entries = floor(file size / bytes_per_entry), and the position starts at 0 |
| Criteo.CriteoBinDataset.Length | compressed_DLRM/utils.py:101-102 | the number of entries is the number of whole entries that fit in the file |
| Criteo.CriteoBinDataset.Entry | compressed_DLRM/utils.py:105-106 | the bytes seek(idx * bpe) then read(bpe) returns; no ensures of its own: EntryInFile gives the full in-file range below len, EntryPastEnd the short and empty reads beyond it |
| Criteo.CriteoBinDataset.EntryInFile | compressed_DLRM/utils.py:105-106 | entry idx below len is exactly bytes idx * bytes_per_entry..(idx + 1) * bytes_per_entry of the file |
| Criteo.CriteoBinDataset.EntriesDisjoint | compressed_DLRM/utils.py:105-106 | different entries do not overlap in the file |
| Criteo.CriteoBinDataset.EntryPastEnd | compressed_DLRM/utils.py:105-107 | an index past the end reads a short entry: the file's tail at len, and nothing after it, which decodes to an empty batch |
| Criteo.CriteoBinDataset.EntryRecordCount | compressed_DLRM/utils.py:91-108 | an in-range entry decodes exactly when bytes_per_feature * batch_size is a multiple of 4; with 4-byte features it holds batch_size records |
| Criteo.CriteoBinDataset.GetItem | compressed_DLRM/utils.py:104-116 | a negative index fails at the seek and leaves the position unchanged; otherwise the result is the decoded entry and the position ends after the bytes read |

## Left out

- Floating point. Tile values, norms and products are exact integers. The norm `T.linalg.norm(ord=ord)` is a score function passed as a parameter. The density is the ratio `num / den` of integers. `float()` and `log()` are not modelled.
- Prune.TopK: among tiles of equal score, `T.topk`'s choice is not modelled. Every property of the pruned tensor is proved for any top-k selection (`Prune.PruneSelection`), and `TopK` is one such selection.
- Prune.MagnitudePrune, Prune.BlockCount, Prune.FromSelection, Prune.KeepBest, Spmm.GatherMultiplyScatter, CharData.Starts, Criteo.CriteoBinDataset.Entry: these carry no `ensures` of their own. What they promise is stated by the lemmas about them, which their "## Model" rows name: PruneFails, PruneSelection, PruneStructure, PruneKeepsBest, PruneWithinDensity, FullDensityRoundTrip, GatherMultiplyScatterCorrect, StartAt, EntryInFile and EntryPastEnd.
- Hardware and libraries: `poptorch.isRunningOnIpu()` is a boolean parameter. The following are left out, so the accelerator path ends at the `custom_op` call it builds:
  - `ctypes` library loading;
  - `poptorch.custom_op`;
  - popart's op and opx registration;
  - the popsparse planning, partitioning and `sparseDenseMatMul` graph construction.
- Spmm.StaticSparseLinearForward: models the software path only. On the accelerator the layer's result is the offloaded call, which `Spmm.StaticSparseMatMul` already covers.
- Spmm.BlockCooSpmmIpu: the output's dtype and device, and `dense.dtype`, are not modelled; only shapes and attributes are.
- DynamicSparse.CustomOp: `clone`, `getSubgraphValue` and `CustomOpx.grow` are not modelled. They copy the op, return a constant, and call popsparse, which is outside this model.
- DynamicSparse: only `FLOAT16` and `FLOAT` are modelled, and only as tags on the tensor information. The float values are integers as above.
- CharData: `CharVocab.from_path` and `Dataset.from_path` read JSON and text files. The vocabulary and the text are parameters instead.
- CharData: each vocabulary entry is one character. The source's vocabulary is a tuple of strings loaded from JSON, and a text is iterated character by character, so an entry longer than one character can never be looked up. Such entries only change `ids_to_str`, which joins them.
- CharData: `batch` with a seed draws starts forever from a PCG64 generator. This randomness is left out; only the seedless mode is modelled.
- CharData.Batches: `overlap_length > sequence_length` is excluded by its `requires`. In that case the Python `range` runs with a negative step and the slices take negative starts.
- CharData.StackBatches: the generator is modelled as the list of every batch it yields. Laziness and the infinite seeded stream are not captured.
- Criteo: the file is a byte sequence given to the constructor. The following are left out:
  - `open`, `os.path.getsize` and `file.close` in `__del__`;
  - `np.load(counts_file)`: the counts are stored and never read by the modelled code;
  - `print`.
- Criteo.CriteoBinDataset.constructor: a non-positive `bytes_per_entry` is excluded by its `requires`. In the source it makes `__init__` divide by zero, or gives a negative entry size.
- Criteo: `math.floor(size / bytes_per_entry)` is modelled as exact integer division. For files beyond 2⁵³ bytes the float division could round differently.
- Criteo: `np.frombuffer(dtype=np.int32)` is taken as little-endian. A `bytes_per_feature` other than 4 only changes the entry size, and the entry is still decoded as int32 values, as the source does.
- Criteo.TransformFeatures: the dense features pass through unchanged, because the `log(x + 1)` transform is floating point. Only the categorical ids and the label column are stated exactly.
- Code and description disagree on the block count. The description says the number of kept blocks is the floor of `density * numel / block_size²`. The code applies `int()`, which truncates toward zero, and the model follows the code (`Prune.TruncDiv`). So a slightly negative density, above `-block_size² / numel`, gives a count of 0 and an empty, successful prune. A more negative one gives a negative count, and `topk` fails (`Prune.PruneFails`).

## Findings

| source | as written | input that shows it | evidently intended | confidence | as-written member | corrected member |
|---|---|---|---|---|---|---|
| sparsity_benchmarks/poptorch_dynamic_sparse/poptorch_dynamic_sparse_op.py:16-18 | `dynamic_spmm_ipu` takes `block_size = sparse.shape[2]` and never checks that the blocks are square. The C++ `toPopSparse` then scales the column indices by that block size as well. | A 1x2 tile stored at block column 1, multiplied by a dense operand of shape (4, 3). It passes every check, and its element column becomes 1 instead of 1 * 2 = 2. | Reject non-square blocks, as `block_coo_spmm_ipu` does. Then every element index is block size times block index. | medium, not executed | DynamicSparse.NonSquareBlocksMisplaced | DynamicSparse.DynamicSpmmIpuChecked |

DynamicSparse.DynamicAgreesWithStaticIpu proves the corrected call correct. Its C++ side ends up with the same sizes, element indices and output shape as the static accelerator path.
