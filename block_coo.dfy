/**
 * Block-COO sparse matrices: a block grid of rows x cols blocks, each block
 * a br x bc tile, of which only the listed entries are stored (the tensor
 * library's sparse COO tensor of shape (rows, cols, br, bc) with two sparse
 * and two dense dimensions). Coalescing, the block transpose and the
 * conversion to a dense matrix.
 */
module BlockCoo {
  import opened Dense
  import opened Results

  /** One stored block: its block-grid coordinates and its tile. */
  datatype Entry = Entry(row: nat, col: nat, tile: Matrix)

  /** A block-sparse matrix of rows x cols blocks of br x bc elements. */
  datatype BlockCoo = BlockCoo(rows: nat, cols: nat, br: nat, bc: nat, entries: seq<Entry>)

  datatype Layout = Strided | SparseCoo

  /**
   * A tensor as the operations receive it: its layout tag, its numbers of
   * sparse and dense dimensions, the library's "is coalesced" flag, and its
   * block data.
   */
  datatype SparseTensor = SparseTensor(layout: Layout, sparseDim: nat, denseDim: nat, coalesced: bool, block: BlockCoo)

  datatype CooError = RankMismatch(sparseDim: nat, denseDim: nat)

  function Key(e: Entry): (nat, nat) {
    (e.row, e.col)
  }

  /** Lexicographic order on block coordinates. */
  predicate Less(x: (nat, nat), y: (nat, nat)) {
    x.0 < y.0 || (x.0 == y.0 && x.1 < y.1)
  }

  predicate TilesShaped(s: seq<Entry>, br: nat, bc: nat) {
    forall k :: 0 <= k < |s| ==> Shaped(s[k].tile, br, bc)
  }

  predicate InGrid(s: seq<Entry>, rows: nat, cols: nat) {
    forall k :: 0 <= k < |s| ==> s[k].row < rows && s[k].col < cols
  }

  /** What the tensor library guarantees of every block-COO tensor. */
  predicate Valid(m: BlockCoo) {
    InGrid(m.entries, m.rows, m.cols) && TilesShaped(m.entries, m.br, m.bc)
  }

  /**
   * What every block-COO tensor satisfies: four dimensions in all (the
   * block grid and the tile), a valid block matrix, and the coalesced flag
   * only ever set on data that really is coalesced.
   */
  predicate TensorOk(t: SparseTensor) {
    t.sparseDim + t.denseDim == 4 && Valid(t.block) && (t.coalesced ==> Coalesced(t.block))
  }

  /** Strictly increasing coordinates: sorted, no block stored twice. */
  predicate Sorted(s: seq<Entry>) {
    forall i, j :: 0 <= i < j < |s| ==> Less(Key(s[i]), Key(s[j]))
  }

  predicate Coalesced(m: BlockCoo) {
    Sorted(m.entries)
  }

  /** The set of stored block coordinates. */
  function Keys(s: seq<Entry>): set<(nat, nat)> {
    if s == [] then {} else {Key(s[0])} + Keys(s[1..])
  }

  /** x is below every stored coordinate of s. */
  predicate Below(x: (nat, nat), s: seq<Entry>) {
    forall k :: 0 <= k < |s| ==> Less(x, Key(s[k]))
  }

  /** Element (a, b) of block (r, c): the sum of every stored tile of that block at (a, b). */
  function BlockSum(s: seq<Entry>, r: int, c: int, a: int, b: int): int {
    if s == [] then 0
    else (if s[0].row == r && s[0].col == c then Get(s[0].tile, a, b) else 0) + BlockSum(s[1..], r, c, a, b)
  }

  /** The contribution of the k-th stored entry to element (a, b) of block (r, c). */
  function EntryValue(s: seq<Entry>, k: int, r: int, c: int, a: int, b: int): int {
    if 0 <= k < |s| && s[k].row == r && s[k].col == c then Get(s[k].tile, a, b) else 0
  }

  /** BlockSum as a sum over entry positions. */
  lemma {:induction false} BlockSumIndex(s: seq<Entry>, r: int, c: int, a: int, b: int)
    ensures BlockSum(s, r, c, a, b) == Sum(|s|, k => EntryValue(s, k, r, c, a, b))
  {
    if s != [] {
      BlockSumIndex(s[1..], r, c, a, b);
      var f := k => EntryValue(s, k, r, c, a, b);
      SumSplit(1, |s| - 1, f);
      SumExt(|s| - 1, k => EntryValue(s[1..], k, r, c, a, b), k => f(1 + k));
      assert Sum(1, f) == f(0);
    }
  }

  lemma {:induction false} KeysIndex(s: seq<Entry>, k: nat)
    requires k < |s|
    ensures Key(s[k]) in Keys(s)
  {
    if k > 0 {
      KeysIndex(s[1..], k - 1);
    }
  }

  lemma {:induction false} KeysHas(s: seq<Entry>, x: (nat, nat))
    requires x in Keys(s)
    ensures exists k :: 0 <= k < |s| && Key(s[k]) == x
  {
    if Key(s[0]) != x {
      KeysHas(s[1..], x);
      var k :| 0 <= k < |s[1..]| && Key(s[1..][k]) == x;
      assert Key(s[k + 1]) == x;
    }
  }

  lemma {:induction false} BelowKeys(x: (nat, nat), s: seq<Entry>)
    requires Below(x, s)
    ensures forall y :: y in Keys(s) ==> Less(x, y)
  {
    forall y | y in Keys(s)
      ensures Less(x, y)
    {
      KeysHas(s, y);
    }
  }

  /** A coordinate that is not stored contributes nothing. */
  lemma {:induction false} AbsentSum(s: seq<Entry>, r: nat, c: nat, a: int, b: int)
    requires (r, c) !in Keys(s)
    ensures BlockSum(s, r, c, a, b) == 0
  {
    if s != [] {
      AbsentSum(s[1..], r, c, a, b);
    }
  }

  /** No block coordinate is stored twice. */
  predicate DistinctKeys(s: seq<Entry>) {
    forall i, j :: 0 <= i < j < |s| ==> Key(s[i]) != Key(s[j])
  }

  lemma {:induction false} KeysMiss(s: seq<Entry>, x: (nat, nat))
    requires forall k :: 0 <= k < |s| ==> Key(s[k]) != x
    ensures x !in Keys(s)
  {
    if s != [] {
      KeysMiss(s[1..], x);
    }
  }

  /** With no coordinate stored twice, there are as many coordinates as entries. */
  lemma {:induction false} DistinctKeysCount(s: seq<Entry>)
    requires DistinctKeys(s)
    ensures |Keys(s)| == |s|
  {
    if s != [] {
      KeysMiss(s[1..], Key(s[0]));
      DistinctKeysCount(s[1..]);
    }
  }

  /** With no coordinate stored twice, the stored tile of a block is the whole of that block. */
  lemma {:induction false} DistinctSum(s: seq<Entry>, k: nat, a: int, b: int)
    requires DistinctKeys(s) && k < |s|
    ensures BlockSum(s, s[k].row, s[k].col, a, b) == Get(s[k].tile, a, b)
  {
    if k == 0 {
      KeysMiss(s[1..], Key(s[0]));
      AbsentSum(s[1..], s[0].row, s[0].col, a, b);
    } else {
      assert Key(s[0]) != Key(s[k]);
      DistinctSum(s[1..], k - 1, a, b);
    }
  }

  /** In a sorted list the stored tile of a block is the whole of that block. */
  lemma {:induction false} SortedSum(s: seq<Entry>, k: nat, a: int, b: int)
    requires Sorted(s) && k < |s|
    ensures BlockSum(s, s[k].row, s[k].col, a, b) == Get(s[k].tile, a, b)
  {
    if k == 0 {
      BelowKeys(Key(s[0]), s[1..]);
      AbsentSum(s[1..], s[0].row, s[0].col, a, b);
    } else {
      assert Less(Key(s[0]), Key(s[k]));
      SortedSum(s[1..], k - 1, a, b);
    }
  }

  lemma SortedCons(x: Entry, s: seq<Entry>)
    requires Sorted(s) && Below(Key(x), s)
    ensures Sorted([x] + s)
  {
  }

  /**
   * Adds one entry to a sorted list: a new block goes to its place in
   * coordinate order; a block already stored has the tile added to it.
   */
  function Insert(t: seq<Entry>, e: Entry): (r: seq<Entry>)
    ensures |r| <= |t| + 1
  {
    if t == [] then [e]
    else if Less(Key(e), Key(t[0])) then [e] + t
    else if Key(e) == Key(t[0]) then [Entry(e.row, e.col, Add(t[0].tile, e.tile))] + t[1..]
    else [t[0]] + Insert(t[1..], e)
  }

  lemma {:induction false} InsertSorted(t: seq<Entry>, e: Entry)
    requires Sorted(t)
    ensures Sorted(Insert(t, e))
    ensures Keys(Insert(t, e)) == Keys(t) + {Key(e)}
    ensures forall x :: Less(x, Key(e)) && Below(x, t) ==> Below(x, Insert(t, e))
  {
    if t == [] {
    } else if Less(Key(e), Key(t[0])) {
      SortedCons(e, t);
    } else if Key(e) == Key(t[0]) {
    } else {
      InsertSorted(t[1..], e);
      SortedCons(t[0], Insert(t[1..], e));
    }
  }

  lemma {:induction false} InsertShaped(t: seq<Entry>, e: Entry, br: nat, bc: nat)
    requires TilesShaped(t, br, bc) && Shaped(e.tile, br, bc)
    ensures TilesShaped(Insert(t, e), br, bc)
  {
    if t != [] && !Less(Key(e), Key(t[0])) && Key(e) != Key(t[0]) {
      InsertShaped(t[1..], e, br, bc);
    }
  }

  lemma {:induction false} InsertSum(t: seq<Entry>, e: Entry, br: nat, bc: nat, r: int, c: int, a: int, b: int)
    requires TilesShaped(t, br, bc) && Shaped(e.tile, br, bc)
    ensures BlockSum(Insert(t, e), r, c, a, b)
         == BlockSum(t, r, c, a, b) + (if e.row == r && e.col == c then Get(e.tile, a, b) else 0)
  {
    if t == [] {
    } else if Less(Key(e), Key(t[0])) {
    } else if Key(e) == Key(t[0]) {
      GetAdd(t[0].tile, e.tile, a, b);
    } else {
      InsertSum(t[1..], e, br, bc, r, c, a, b);
    }
  }

  /**
   * The tensor library's coalesce: order the stored blocks by (row, col)
   * and merge the entries of a block stored more than once by adding their
   * tiles.
   */
  function Coalesce(s: seq<Entry>): (r: seq<Entry>)
    ensures Sorted(r) && Keys(r) == Keys(s) && |r| <= |s|
  {
    if s == [] then []
    else
      var rest := Coalesce(s[1..]);
      InsertSorted(rest, s[0]);
      Insert(rest, s[0])
  }

  /** Coalescing keeps the shape of the tiles and the value of every block. */
  lemma {:induction false} CoalesceBlocks(s: seq<Entry>, br: nat, bc: nat)
    requires TilesShaped(s, br, bc)
    ensures TilesShaped(Coalesce(s), br, bc)
    ensures forall r, c, a, b :: BlockSum(Coalesce(s), r, c, a, b) == BlockSum(s, r, c, a, b)
  {
    if s != [] {
      CoalesceBlocks(s[1..], br, bc);
      InsertShaped(Coalesce(s[1..]), s[0], br, bc);
      forall r, c, a, b
        ensures BlockSum(Coalesce(s), r, c, a, b) == BlockSum(s, r, c, a, b)
      {
        InsertSum(Coalesce(s[1..]), s[0], br, bc, r, c, a, b);
      }
    }
  }

  lemma {:induction false} InGridKeys(s: seq<Entry>, t: seq<Entry>, rows: nat, cols: nat)
    requires InGrid(s, rows, cols) && Keys(t) <= Keys(s)
    ensures InGrid(t, rows, cols)
  {
    forall k | 0 <= k < |t|
      ensures t[k].row < rows && t[k].col < cols
    {
      KeysIndex(t, k);
      KeysHas(s, Key(t[k]));
    }
  }

  /**
   * A sorted list is determined by its coordinates and the values of its
   * blocks: two coalesced lists holding the same blocks are equal.
   */
  lemma {:induction false} SortedUnique(s: seq<Entry>, t: seq<Entry>, br: nat, bc: nat)
    requires Sorted(s) && Sorted(t) && TilesShaped(s, br, bc) && TilesShaped(t, br, bc)
    requires Keys(s) == Keys(t)
    requires forall r, c, a, b :: BlockSum(s, r, c, a, b) == BlockSum(t, r, c, a, b)
    ensures s == t
  {
    if s == [] {
      assert Keys(t) == {};
    } else {
      KeysIndex(s, 0);
      assert t != [];
      KeysIndex(t, 0);
      BelowKeys(Key(s[0]), s[1..]);
      BelowKeys(Key(t[0]), t[1..]);
      assert Key(s[0]) == Key(t[0]);
      forall a, b | 0 <= a < br && 0 <= b < bc
        ensures Get(s[0].tile, a, b) == Get(t[0].tile, a, b)
      {
        SortedSum(s, 0, a, b);
        SortedSum(t, 0, a, b);
        assert BlockSum(s, s[0].row, s[0].col, a, b) == BlockSum(t, t[0].row, t[0].col, a, b);
      }
      Ext(s[0].tile, t[0].tile);
      assert Keys(s[1..]) == Keys(s) - {Key(s[0])};
      assert Keys(t[1..]) == Keys(t) - {Key(t[0])};
      assert s[0] == t[0];
      forall r, c, a, b
        ensures BlockSum(s[1..], r, c, a, b) == BlockSum(t[1..], r, c, a, b)
      {
        assert BlockSum(s, r, c, a, b) == BlockSum(t, r, c, a, b);
      }
      SortedUnique(s[1..], t[1..], br, bc);
    }
  }

  /** Coalescing blocks stored once each only reorders them. */
  lemma CoalesceDistinct(s: seq<Entry>, br: nat, bc: nat)
    requires DistinctKeys(s) && TilesShaped(s, br, bc)
    ensures |Coalesce(s)| == |s|
    ensures forall k :: 0 <= k < |s| ==> exists j :: 0 <= j < |s| && Coalesce(s)[k] == s[j]
  {
    var r := Coalesce(s);
    CoalesceBlocks(s, br, bc);
    DistinctKeysCount(s);
    DistinctKeysCount(r);
    forall k | 0 <= k < |r|
      ensures exists j :: 0 <= j < |s| && r[k] == s[j]
    {
      KeysIndex(r, k);
      KeysHas(s, Key(r[k]));
      var j :| 0 <= j < |s| && Key(s[j]) == Key(r[k]);
      forall a, b | 0 <= a < br && 0 <= b < bc
        ensures Get(r[k].tile, a, b) == Get(s[j].tile, a, b)
      {
        SortedSum(r, k, a, b);
        DistinctSum(s, j, a, b);
      }
      Ext(r[k].tile, s[j].tile);
    }
  }

  /** Coalescing an already coalesced list changes nothing. */
  lemma CoalesceIdempotent(s: seq<Entry>, br: nat, bc: nat)
    requires Sorted(s) && TilesShaped(s, br, bc)
    ensures Coalesce(s) == s
  {
    CoalesceBlocks(s, br, bc);
    SortedUnique(Coalesce(s), s, br, bc);
  }

  /** The block grid with coordinates swapped and each tile transposed. */
  function SwapEntry(e: Entry): Entry {
    Entry(e.col, e.row, Transpose(e.tile))
  }

  function SwapAll(s: seq<Entry>): (r: seq<Entry>)
    ensures |r| == |s|
  {
    if s == [] then [] else [SwapEntry(s[0])] + SwapAll(s[1..])
  }

  function SwapKey(x: (nat, nat)): (nat, nat) {
    (x.1, x.0)
  }

  lemma {:induction false} SwapAllFacts(s: seq<Entry>, rows: nat, cols: nat, br: nat, bc: nat)
    requires InGrid(s, rows, cols) && TilesShaped(s, br, bc)
    ensures InGrid(SwapAll(s), cols, rows) && TilesShaped(SwapAll(s), bc, br)
    ensures Keys(SwapAll(s)) == set x | x in Keys(s) :: SwapKey(x)
    ensures forall r, c, a, b :: BlockSum(SwapAll(s), c, r, b, a) == BlockSum(s, r, c, a, b)
  {
    SwapKeys(s);
    if s != [] {
      SwapAllFacts(s[1..], rows, cols, br, bc);
      forall r, c, a, b
        ensures BlockSum(SwapAll(s), c, r, b, a) == BlockSum(s, r, c, a, b)
      {
        GetTranspose(s[0].tile, b, a);
      }
    }
  }

  /** The permutation (0, rank, 1, rank + 1, ...) that puts each block dimension next to its tile dimension. */
  function Interleave(rank: nat): (p: seq<nat>)
    ensures |p| == 2 * rank
    ensures forall d :: 0 <= d < rank ==> p[2 * d] == d && p[2 * d + 1] == rank + d
    ensures forall i :: 0 <= i < 2 * rank ==> p[i] < 2 * rank
  {
    seq(2 * rank, i requires 0 <= i < 2 * rank => if i % 2 == 0 then i / 2 else rank + i / 2)
  }

  /**
   * The shape of the dense form of a tensor with sparseDim block dimensions
   * and denseDim tile dimensions: an error unless the two numbers agree;
   * otherwise the shape reordered as (block 0, tile 0, block 1, tile 1, ...)
   * and each block/tile pair merged into one dimension.
   */
  function DenseShape(shape: seq<nat>, sparseDim: nat, denseDim: nat): (r: Result<seq<nat>, CooError>)
    requires |shape| == sparseDim + denseDim
    ensures r.Err? <==> sparseDim != denseDim
    ensures r.Ok? ==> |r.value| == sparseDim
    ensures r.Ok? ==> forall d :: 0 <= d < sparseDim ==> r.value[d] == shape[d] * shape[sparseDim + d]
  {
    if sparseDim != denseDim then Err(RankMismatch(sparseDim, denseDim))
    else
      Ok(MergePairs(Permute(shape, Interleave(sparseDim)), sparseDim))
  }

  /** The dimensions of shape reordered by perm. */
  function Permute(shape: seq<nat>, perm: seq<nat>): (q: seq<nat>)
    requires forall i :: 0 <= i < |perm| ==> perm[i] < |shape|
    ensures |q| == |perm| && forall i :: 0 <= i < |perm| ==> q[i] == shape[perm[i]]
  {
    seq(|perm|, i requires 0 <= i < |perm| => shape[perm[i]])
  }

  /** Each pair of adjacent dimensions merged into one by a reshape. */
  function MergePairs(q: seq<nat>, n: nat): (r: seq<nat>)
    requires |q| == 2 * n
    ensures |r| == n && forall d :: 0 <= d < n ==> r[d] == q[2 * d] * q[2 * d + 1]
  {
    seq(n, d requires 0 <= d < n => Merged(q[2 * d], q[2 * d + 1]))
  }

  /** The size of two adjacent dimensions merged by a reshape. */
  function Merged(a: nat, b: nat): nat {
    a * b
  }

  /** Element (i, j) of the dense form. */
  function DenseAt(m: BlockCoo, i: int, j: int): int {
    if m.br == 0 || m.bc == 0 then 0
    else BlockSum(m.entries, i / m.br, j / m.bc, i % m.br, j % m.bc)
  }

  /** The dense (rows*br) x (cols*bc) matrix, zero outside the stored blocks. */
  function ToDense(m: BlockCoo): (d: Matrix)
    ensures Shaped(d, m.rows * m.br, m.cols * m.bc)
  {
    Build(m.rows * m.br, m.cols * m.bc, (i, j) => DenseAt(m, i, j))
  }

  /**
   * block_coo_to_dense: refuses a tensor whose sparse and dense dimension
   * counts differ; otherwise element (i, j) is element (i mod br, j mod bc)
   * of block (i div br, j div bc), summed over the entries that store it.
   */
  function BlockCooToDense(t: SparseTensor): (r: Result<Matrix, CooError>)
    requires TensorOk(t)
    ensures r.Err? <==> t.sparseDim != t.denseDim
    ensures r.Ok? ==> Shaped(r.value, t.block.rows * t.block.br, t.block.cols * t.block.bc)
    ensures r.Ok? ==> forall i, j :: 0 <= i < t.block.rows * t.block.br && 0 <= j < t.block.cols * t.block.bc ==>
      Get(r.value, i, j) == BlockSum(t.block.entries, i / t.block.br, j / t.block.bc, i % t.block.br, j % t.block.bc)
    ensures r.Ok? ==> var m := t.block;
      DenseShape([m.rows, m.cols, m.br, m.bc], t.sparseDim, t.denseDim) == Ok([r.value.rows, r.value.cols])
  {
    if t.sparseDim != t.denseDim then Err(RankMismatch(t.sparseDim, t.denseDim))
    else
      var m := t.block;
      var shape := DenseShape([m.rows, m.cols, m.br, m.bc], 2, 2);
      assert shape.value == [m.rows * m.br, m.cols * m.bc];
      Ok(ToDense(m))
  }

  /**
   * For a coalesced matrix, the dense element is the element of the one
   * stored tile of its block, or 0 when that block is not stored.
   */
  lemma ToDenseCoalesced(m: BlockCoo, i: int, j: int)
    requires Coalesced(m)
    requires 0 <= i < m.rows * m.br && 0 <= j < m.cols * m.bc
    ensures m.br > 0 && m.bc > 0
    ensures forall k :: 0 <= k < |m.entries| && m.entries[k].row == i / m.br && m.entries[k].col == j / m.bc ==>
      Get(ToDense(m), i, j) == Get(m.entries[k].tile, i % m.br, j % m.bc)
    ensures (i / m.br, j / m.bc) !in Keys(m.entries) ==> Get(ToDense(m), i, j) == 0
  {
    forall k | 0 <= k < |m.entries| && m.entries[k].row == i / m.br && m.entries[k].col == j / m.bc
      ensures Get(ToDense(m), i, j) == Get(m.entries[k].tile, i % m.br, j % m.bc)
    {
      SortedSum(m.entries, k, i % m.br, j % m.bc);
    }
    if (i / m.br, j / m.bc) !in Keys(m.entries) {
      AbsentSum(m.entries, i / m.br, j / m.bc, i % m.br, j % m.bc);
    }
  }

  /**
   * block_coo_transpose: the shape (rows, cols, br, bc) becomes
   * (cols, rows, bc, br), each block (r, c) with tile V becomes block (c, r)
   * with tile V^T, and the result is coalesced.
   */
  function BlockCooTranspose(m: BlockCoo): (t: BlockCoo)
    ensures t.rows == m.cols && t.cols == m.rows && t.br == m.bc && t.bc == m.br
    ensures Coalesced(t)
    ensures Keys(t.entries) == set x | x in Keys(m.entries) :: SwapKey(x)
  {
    var swapped := SwapAll(m.entries);
    assert Keys(swapped) == set x | x in Keys(m.entries) :: SwapKey(x) by {
      SwapKeys(m.entries);
    }
    BlockCoo(m.cols, m.rows, m.bc, m.br, Coalesce(swapped))
  }

  lemma {:induction false} SwapKeys(s: seq<Entry>)
    ensures Keys(SwapAll(s)) == set x | x in Keys(s) :: SwapKey(x)
  {
    if s != [] {
      SwapKeys(s[1..]);
      var lhs := Keys(SwapAll(s));
      var rhs := set x | x in Keys(s) :: SwapKey(x);
      assert SwapAll(s)[1..] == SwapAll(s[1..]);
      forall y | y in lhs ensures y in rhs {
        if y != SwapKey(Key(s[0])) {
          var x :| x in Keys(s[1..]) && y == SwapKey(x);
          assert x in Keys(s);
        }
      }
      forall y | y in rhs ensures y in lhs {
        var x :| x in Keys(s) && y == SwapKey(x);
        if x != Key(s[0]) {
          assert x in Keys(s[1..]);
        }
      }
    }
  }

  /** The block transpose of a valid matrix is valid, and its blocks are the transposed blocks. */
  lemma TransposeBlocks(m: BlockCoo)
    requires Valid(m)
    ensures Valid(BlockCooTranspose(m))
    ensures forall r, c, a, b :: BlockSum(BlockCooTranspose(m).entries, c, r, b, a) == BlockSum(m.entries, r, c, a, b)
  {
    var s := SwapAll(m.entries);
    SwapAllFacts(m.entries, m.rows, m.cols, m.br, m.bc);
    CoalesceBlocks(s, m.bc, m.br);
    InGridKeys(s, Coalesce(s), m.cols, m.rows);
  }

  /** to_dense(transpose(S)) == to_dense(S)^T. */
  lemma TransposeToDense(m: BlockCoo)
    requires Valid(m)
    ensures ToDense(BlockCooTranspose(m)) == Transpose(ToDense(m))
  {
    var t := BlockCooTranspose(m);
    TransposeBlocks(m);
    forall i, j | 0 <= i < m.cols * m.bc && 0 <= j < m.rows * m.br
      ensures Get(ToDense(t), i, j) == Get(Transpose(ToDense(m)), i, j)
    {
      GetTranspose(ToDense(m), i, j);
    }
    Ext(ToDense(t), Transpose(ToDense(m)));
  }

  /** Transposing a coalesced matrix twice gives it back. */
  lemma TransposeInvolution(m: BlockCoo)
    requires Valid(m) && Coalesced(m)
    ensures BlockCooTranspose(BlockCooTranspose(m)) == m
  {
    var t := BlockCooTranspose(m);
    TransposeBlocks(m);
    TransposeBlocks(t);
    var tt := BlockCooTranspose(t);
    assert Keys(tt.entries) == Keys(m.entries) by {
      forall x | x in Keys(m.entries) ensures x in Keys(tt.entries) {
        assert SwapKey(x) in Keys(t.entries);
        assert SwapKey(SwapKey(x)) == x;
      }
      forall x | x in Keys(tt.entries) ensures x in Keys(m.entries) {
        var y :| y in Keys(t.entries) && x == SwapKey(y);
        var z :| z in Keys(m.entries) && y == SwapKey(z);
      }
    }
    forall r, c, a, b
      ensures BlockSum(tt.entries, r, c, a, b) == BlockSum(m.entries, r, c, a, b)
    {
      assert BlockSum(tt.entries, r, c, a, b) == BlockSum(t.entries, c, r, b, a);
    }
    SortedUnique(tt.entries, m.entries, m.br, m.bc);
  }

  /** Each stored block (r, c) with tile V of a coalesced matrix is stored as (c, r) with tile V^T in its transpose. */
  lemma TransposeEntry(m: BlockCoo, k: nat)
    requires Valid(m) && Coalesced(m) && k < |m.entries|
    ensures exists k' :: 0 <= k' < |BlockCooTranspose(m).entries| && BlockCooTranspose(m).entries[k'] == SwapEntry(m.entries[k])
  {
    var t := BlockCooTranspose(m);
    var e := m.entries[k];
    TransposeBlocks(m);
    KeysIndex(m.entries, k);
    assert SwapKey(Key(e)) in Keys(t.entries);
    KeysHas(t.entries, SwapKey(Key(e)));
    var k' :| 0 <= k' < |t.entries| && Key(t.entries[k']) == SwapKey(Key(e));
    forall a, b | 0 <= a < m.bc && 0 <= b < m.br
      ensures Get(t.entries[k'].tile, a, b) == Get(Transpose(e.tile), a, b)
    {
      SortedSum(t.entries, k', a, b);
      SortedSum(m.entries, k, b, a);
      GetTranspose(e.tile, a, b);
    }
    Ext(t.entries[k'].tile, Transpose(e.tile));
  }
}
