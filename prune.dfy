/**
 * magnitude_prune: group a dense matrix into block_size x block_size tiles,
 * score every tile, keep the int(density * numel / block_size^2) best tiles
 * and return them as a coalesced block-COO tensor of shape
 * (rows / bs, cols / bs, bs, bs).
 *
 * The score of a tile (a matrix norm in the source) is a parameter, and the
 * order among tiles of equal score is left open: every property below is
 * proved for any top-k selection, of which TopK is one.
 */
module Prune {
  import opened Dense
  import opened Results
  import opened BlockCoo

  datatype PruneError =
    | NegativeBlockSize(size: int)
    | ZeroBlockSize
    | ReshapeMismatch(rows: nat, cols: nat, blockSize: nat)
    | BadTopK(k: int, available: int)

  /** Python's int() of the quotient x / y: the quotient rounded toward zero. */
  function TruncDiv(x: int, y: int): (q: int)
    requires y > 0
    ensures x >= 0 ==> 0 <= q * y <= x < q * y + y
    ensures x < 0 ==> q * y - y < x <= q * y <= 0
  {
    if x >= 0 then
      DivBounds(x, y);
      x / y
    else
      DivBounds(-x, y);
      assert -((-x) / y) * y == -(((-x) / y) * y);
      -((-x) / y)
  }

  lemma DivBounds(x: nat, y: nat)
    requires y > 0
    ensures 0 <= (x / y) * y <= x < (x / y) * y + y
  {
    var q, r := x / y, x % y;
    assert x == q * y + r && 0 <= r < y;
    assert q >= 0;
  }

  /** The number of blocks kept at density num/den: int(density * numel / bs^2). */
  function BlockCount(numel: int, bs: nat, num: int, den: nat): int
    requires bs > 0 && den > 0
  {
    TruncDiv(num * numel, den * (bs * bs))
  }

  /** The bs x bs sub-block of m at block coordinates (p, q). */
  function Tile(m: Matrix, bs: nat, p: int, q: int): (t: Matrix)
    ensures Shaped(t, bs, bs)
    ensures forall a, b :: 0 <= a < bs && 0 <= b < bs ==> Get(t, a, b) == Get(m, p * bs + a, q * bs + b)
  {
    Build(bs, bs, (a, b) => Get(m, p * bs + a, q * bs + b))
  }

  /** The flattened score array: entry p*nbc + q is the score of block (p, q). */
  function Scores(m: Matrix, bs: nat, nbr: nat, nbc: nat, score: Matrix -> int): (s: seq<int>)
    ensures |s| == nbr * nbc
  {
    seq(nbr * nbc, k requires 0 <= k < nbr * nbc =>
      DivBound(k, nbc, nbr);
      score(Tile(m, bs, k / nbc, k % nbc)))
  }

  predicate InRange(s: seq<nat>, n: nat) {
    forall i :: 0 <= i < |s| ==> s[i] < n
  }

  predicate Distinct(s: seq<nat>) {
    forall i, j :: 0 <= i < j < |s| ==> s[i] != s[j]
  }

  /** Indices in order of non-increasing score. */
  predicate Descending(scores: seq<int>, s: seq<nat>)
    requires InRange(s, |scores|)
  {
    forall i, j :: 0 <= i < j < |s| ==> scores[s[i]] >= scores[s[j]]
  }

  /**
   * What topk(scores, k).indices promises: k distinct positions, best
   * first, and none scoring below a position left out.
   */
  predicate IsTopK(scores: seq<int>, k: nat, sel: seq<nat>) {
    && |sel| == k
    && InRange(sel, |scores|)
    && Distinct(sel)
    && Descending(scores, sel)
    && forall i, j :: 0 <= i < |sel| && 0 <= j < |scores| && j !in sel ==> scores[sel[i]] >= scores[j]
  }

  function Range(n: nat): (r: seq<nat>)
    ensures |r| == n && forall i :: 0 <= i < n ==> r[i] == i
  {
    seq(n, i requires 0 <= i < n => i)
  }

  /** scores[k], or 0 off the end. */
  function At(scores: seq<int>, k: nat): int {
    if k < |scores| then scores[k] else 0
  }

  /** Puts index i into a list after every index of equal or greater score. */
  function InsertDesc(scores: seq<int>, i: nat, s: seq<nat>): (r: seq<nat>)
    ensures |r| == |s| + 1
  {
    if s == [] then [i]
    else if At(scores, i) > At(scores, s[0]) then [i] + s
    else [s[0]] + InsertDesc(scores, i, s[1..])
  }

  /** A stable sort of the given indices by non-increasing score. */
  function SortDesc(scores: seq<int>, idx: seq<nat>): (r: seq<nat>)
    ensures |r| == |idx|
  {
    if idx == [] then []
    else InsertDesc(scores, idx[|idx| - 1], SortDesc(scores, idx[..|idx| - 1]))
  }

  lemma InsertDescFacts(scores: seq<int>, i: nat, s: seq<nat>)
    requires i < |scores| && InRange(s, |scores|) && Descending(scores, s)
    ensures multiset(InsertDesc(scores, i, s)) == multiset(s) + multiset{i}
    ensures InRange(InsertDesc(scores, i, s), |scores|) && Descending(scores, InsertDesc(scores, i, s))
  {
    InsertDescMultiset(scores, i, s);
    InsertDescOrder(scores, i, s);
  }

  /** Insertion adds exactly the one index. */
  lemma {:induction false} InsertDescMultiset(scores: seq<int>, i: nat, s: seq<nat>)
    ensures multiset(InsertDesc(scores, i, s)) == multiset(s) + multiset{i}
  {
    if s != [] && At(scores, i) <= At(scores, s[0]) {
      var rest := InsertDesc(scores, i, s[1..]);
      InsertDescMultiset(scores, i, s[1..]);
      assert s == [s[0]] + s[1..];
      assert multiset(s) == multiset([s[0]]) + multiset(s[1..]);
      assert InsertDesc(scores, i, s) == [s[0]] + rest;
      assert multiset([s[0]] + rest) == multiset([s[0]]) + multiset(rest);
    }
  }

  /** Insertion keeps the list in range and descending; its head is the new index or the old head. */
  lemma {:induction false} InsertDescOrder(scores: seq<int>, i: nat, s: seq<nat>)
    requires i < |scores| && InRange(s, |scores|) && Descending(scores, s)
    ensures InsertDesc(scores, i, s)[0] == i || (s != [] && InsertDesc(scores, i, s)[0] == s[0])
    ensures InRange(InsertDesc(scores, i, s), |scores|) && Descending(scores, InsertDesc(scores, i, s))
  {
    if s == [] {
    } else if scores[i] > scores[s[0]] {
      InsertAtFront(scores, i, s);
    } else {
      var rest := InsertDesc(scores, i, s[1..]);
      InsertDescOrder(scores, i, s[1..]);
      assert InsertDesc(scores, i, s) == [s[0]] + rest;
      KeepFront(scores, s[0], rest);
    }
  }

  /** An index scoring above the head of a descending list can go in front of it. */
  lemma InsertAtFront(scores: seq<int>, i: nat, s: seq<nat>)
    requires i < |scores| && InRange(s, |scores|) && Descending(scores, s)
    requires s != [] && scores[i] > scores[s[0]]
    ensures InRange([i] + s, |scores|) && Descending(scores, [i] + s)
  {
    var r := [i] + s;
    forall p, q | 0 <= p < q < |r|
      ensures scores[r[p]] >= scores[r[q]]
    {
      if p == 0 {
        assert r[q] == s[q - 1];
      } else {
        assert r[p] == s[p - 1] && r[q] == s[q - 1];
      }
    }
  }

  /** A head scoring at least as much as every element of a descending list keeps the list descending. */
  lemma KeepFront(scores: seq<int>, h: nat, rest: seq<nat>)
    requires h < |scores| && InRange(rest, |scores|) && Descending(scores, rest)
    requires rest != [] ==> scores[rest[0]] <= scores[h]
    ensures InRange([h] + rest, |scores|) && Descending(scores, [h] + rest)
  {
    var r := [h] + rest;
    forall p, q | 0 <= p < q < |r|
      ensures scores[r[p]] >= scores[r[q]]
    {
      if p == 0 {
        assert r[q] == rest[q - 1];
        assert scores[rest[0]] >= scores[rest[q - 1]];
      } else {
        assert r[p] == rest[p - 1] && r[q] == rest[q - 1];
      }
    }
  }

  lemma {:induction false} SortDescFacts(scores: seq<int>, idx: seq<nat>)
    requires InRange(idx, |scores|)
    ensures multiset(SortDesc(scores, idx)) == multiset(idx)
    ensures InRange(SortDesc(scores, idx), |scores|) && Descending(scores, SortDesc(scores, idx))
  {
    if idx != [] {
      var init := idx[..|idx| - 1];
      assert idx == init + [idx[|idx| - 1]];
      SortDescFacts(scores, init);
      InsertDescFacts(scores, idx[|idx| - 1], SortDesc(scores, init));
    }
  }

  lemma RangeCounts(n: nat, x: nat)
    ensures multiset(Range(n))[x] == if x < n then 1 else 0
  {
    if n > 0 {
      assert Range(n) == Range(n - 1) + [n - 1];
      RangeCounts(n - 1, x);
    }
  }

  /** A sequence whose multiset holds nothing twice has no repeated element. */
  lemma MultisetDistinct(s: seq<nat>)
    requires forall x :: multiset(s)[x] <= 1
    ensures Distinct(s)
  {
    forall i, j | 0 <= i < j < |s|
      ensures s[i] != s[j]
    {
      assert s == s[..i] + [s[i]] + s[i + 1..j] + [s[j]] + s[j + 1..];
      assert multiset(s)[s[i]] >= multiset([s[i]] + s[i + 1..j] + [s[j]])[s[i]];
    }
  }

  /** topk(scores, k).indices: the first k positions of the stable descending sort. */
  function TopK(scores: seq<int>, k: nat): (sel: seq<nat>)
    requires k <= |scores|
    ensures |sel| == k
  {
    SortDesc(scores, Range(|scores|))[..k]
  }

  /** TopK returns a top-k selection. */
  lemma TopKIsTopK(scores: seq<int>, k: nat)
    requires k <= |scores|
    ensures IsTopK(scores, k, TopK(scores, k))
  {
    var order := SortDesc(scores, Range(|scores|));
    SortedOrder(scores);
    PrefixIsTopK(scores, order, k);
  }

  /** The stable descending sort of 0..n-1 holds every index below n exactly once, best first. */
  lemma SortedOrder(scores: seq<int>)
    ensures var order := SortDesc(scores, Range(|scores|));
      && InRange(order, |scores|) && Descending(scores, order) && Distinct(order)
      && forall j :: 0 <= j < |scores| ==> j in order
  {
    var n := |scores|;
    var order := SortDesc(scores, Range(n));
    SortDescFacts(scores, Range(n));
    forall x ensures multiset(order)[x] <= 1 {
      RangeCounts(n, x);
    }
    MultisetDistinct(order);
    forall j | 0 <= j < n
      ensures j in order
    {
      RangeCounts(n, j);
      assert j in multiset(order);
    }
  }

  /** The first k of a best-first ordering of all positions are a top-k selection. */
  lemma PrefixIsTopK(scores: seq<int>, order: seq<nat>, k: nat)
    requires |order| == |scores| && k <= |scores|
    requires InRange(order, |scores|) && Descending(scores, order) && Distinct(order)
    requires forall j :: 0 <= j < |scores| ==> j in order
    ensures IsTopK(scores, k, order[..k])
  {
    var sel := order[..k];
    assert forall i :: 0 <= i < k ==> sel[i] == order[i];
    forall i, j | 0 <= i < k && 0 <= j < |scores| && j !in sel
      ensures scores[sel[i]] >= scores[j]
    {
      assert j in order;
      var p :| 0 <= p < |order| && order[p] == j;
      assert p >= k;
    }
  }

  /** Flat index k of the score array names block (k div nbc, k mod nbc). */
  function Picked(m: Matrix, bs: nat, nbr: nat, nbc: nat, sel: seq<nat>): (s: seq<Entry>)
    requires InRange(sel, nbr * nbc)
    ensures |s| == |sel|
  {
    seq(|sel|, k requires 0 <= k < |sel| =>
      DivBound(sel[k], nbc, nbr);
      Entry(sel[k] / nbc, sel[k] % nbc, Tile(m, bs, sel[k] / nbc, sel[k] % nbc)))
  }

  /** The coalesced (nbr, nbc, bs, bs) tensor holding the selected blocks. */
  function FromSelection(m: Matrix, bs: nat, nbr: nat, nbc: nat, sel: seq<nat>): SparseTensor
    requires InRange(sel, nbr * nbc)
  {
    SparseTensor(SparseCoo, 2, 2, true, BlockCoo(nbr, nbc, bs, bs, Coalesce(Picked(m, bs, nbr, nbc, sel))))
  }

  /** The tensor holding the nnz best-scoring blocks of the nbr x nbc grid. */
  function KeepBest(m: Matrix, bs: nat, nbr: nat, nbc: nat, nnz: nat, score: Matrix -> int): SparseTensor
    requires nnz <= nbr * nbc
  {
    var scores := Scores(m, bs, nbr, nbc, score);
    TopKIsTopK(scores, nnz);
    FromSelection(m, bs, nbr, nbc, TopK(scores, nnz))
  }

  /**
   * magnitude_prune. A zero block size divides by zero and a negative one
   * gives the reshape a negative dimension; the reshape into
   * (rows/bs, bs, cols/bs, bs) fails unless it keeps every element, and
   * topk fails on a count below zero or above the number of blocks.
   */
  function MagnitudePrune(m: Matrix, blockSize: int, num: int, den: nat, score: Matrix -> int): Result<SparseTensor, PruneError>
    requires Wf(m) && den > 0
  {
    if blockSize < 0 then Err(NegativeBlockSize(blockSize))
    else if blockSize == 0 then Err(ZeroBlockSize)
    else
      var bs: nat := blockSize;
      var nbr, nbc := m.rows / bs, m.cols / bs;
      if nbr * bs * nbc * bs != m.rows * m.cols then Err(ReshapeMismatch(m.rows, m.cols, bs))
      else
        var nnz := BlockCount(m.rows * m.cols, bs, num, den);
        if nnz < 0 || nnz > nbr * nbc then Err(BadTopK(nnz, nbr * nbc))
        else Ok(KeepBest(m, bs, nbr, nbc, nnz, score))
  }

  /**
   * Pruning fails exactly when the block size is not positive, the reshape
   * loses elements, or topk gets a bad count.
   */
  lemma PruneFails(m: Matrix, bs: int, num: int, den: nat, score: Matrix -> int)
    requires Wf(m) && den > 0
    ensures MagnitudePrune(m, bs, num, den, score).Err? <==>
      || bs <= 0
      || (m.rows / bs) * bs * (m.cols / bs) * bs != m.rows * m.cols
      || BlockCount(m.rows * m.cols, bs, num, den) < 0
      || BlockCount(m.rows * m.cols, bs, num, den) > (m.rows / bs) * (m.cols / bs)
  {
  }

  /**
   * For a non-empty matrix the reshape keeps every element exactly when the
   * block size divides both dimensions; an empty matrix reshapes whatever
   * the block size.
   */
  lemma ReshapeWhole(rows: nat, cols: nat, bs: nat)
    requires bs > 0
    ensures rows * cols == 0 ==> (rows / bs) * bs * (cols / bs) * bs == rows * cols
    ensures rows * cols > 0 ==>
      ((rows / bs) * bs * (cols / bs) * bs == rows * cols <==> rows % bs == 0 && cols % bs == 0)
  {
    var a, c := (rows / bs) * bs, (cols / bs) * bs;
    DivBounds(rows, bs);
    DivBounds(cols, bs);
    assert (rows / bs) * bs * (cols / bs) * bs == a * c;
    if rows * cols == 0 {
      if rows == 0 { assert a == 0; } else { assert cols == 0 && c == 0; }
    } else {
      DivModSplit(rows, bs);
      DivModSplit(cols, bs);
      if a * c == rows * cols {
        FullProduct(a, rows, c, cols);
      }
    }
  }

  /** Two factors no larger than x and y whose product is x * y are x and y. */
  lemma FullProduct(a: int, x: int, c: int, y: int)
    requires 0 <= a <= x && 0 <= c <= y && 0 < x && 0 < y && a * c == x * y
    ensures a == x && c == y
  {
    MulMono(c, y, a);
    MulMono(a, x, y);
    assert (x - a) * y == 0;
    ZeroFactor(x - a, y);
    assert x * (y - c) == 0;
    ZeroFactor(y - c, x);
  }

  lemma ZeroFactor(d: int, y: int)
    requires d * y == 0 && y > 0
    ensures d == 0
  {
    if d != 0 {
      if d > 0 { MulMono(1, d, y); } else { MulMono(d, -1, y); }
    }
  }

  /** r*n + c determines r and c when c < n. */
  lemma FlatUnique(r: nat, c: nat, p: nat, q: nat, n: nat)
    requires c < n && q < n && r * n + c == p * n + q
    ensures r == p && c == q
  {
    DivModOf(r, n, c);
    DivModOf(p, n, q);
  }

  /** The k-th picked block: inside the grid, at flat position sel[k], holding the original tile. */
  lemma PickedAt(m: Matrix, bs: nat, nbr: nat, nbc: nat, sel: seq<nat>, k: nat)
    requires InRange(sel, nbr * nbc) && k < |sel|
    ensures var e := Picked(m, bs, nbr, nbc, sel)[k];
      && e.row < nbr && e.col < nbc && e.row * nbc + e.col == sel[k]
      && e.tile == Tile(m, bs, e.row, e.col)
  {
    var v := sel[k];
    DivBound(v, nbc, nbr);
    assert v == (v / nbc) * nbc + v % nbc;
  }

  /** Distinct flat indices name distinct blocks. */
  lemma PickedDistinct(m: Matrix, bs: nat, nbr: nat, nbc: nat, sel: seq<nat>)
    requires InRange(sel, nbr * nbc) && Distinct(sel)
    ensures DistinctKeys(Picked(m, bs, nbr, nbc, sel))
    ensures InGrid(Picked(m, bs, nbr, nbc, sel), nbr, nbc)
    ensures TilesShaped(Picked(m, bs, nbr, nbc, sel), bs, bs)
  {
    var s := Picked(m, bs, nbr, nbc, sel);
    forall i, j | 0 <= i < j < |s|
      ensures Key(s[i]) != Key(s[j])
    {
      PickedAt(m, bs, nbr, nbc, sel, i);
      PickedAt(m, bs, nbr, nbc, sel, j);
    }
    forall k | 0 <= k < |s|
      ensures s[k].row < nbr && s[k].col < nbc && Shaped(s[k].tile, bs, bs)
    {
      PickedAt(m, bs, nbr, nbc, sel, k);
    }
  }

  /** Every stored block of the result is one of the picked blocks. */
  lemma SelectionEntries(m: Matrix, bs: nat, nbr: nat, nbc: nat, sel: seq<nat>)
    requires InRange(sel, nbr * nbc) && Distinct(sel)
    ensures var es := FromSelection(m, bs, nbr, nbc, sel).block.entries;
      && |es| == |sel|
      && Sorted(es) && InGrid(es, nbr, nbc) && TilesShaped(es, bs, bs)
      && Keys(es) == Keys(Picked(m, bs, nbr, nbc, sel))
      && forall x :: 0 <= x < |es| ==> exists i :: 0 <= i < |sel| && es[x] == Picked(m, bs, nbr, nbc, sel)[i]
  {
    var s := Picked(m, bs, nbr, nbc, sel);
    PickedDistinct(m, bs, nbr, nbc, sel);
    CoalesceDistinct(s, bs, bs);
    CoalesceBlocks(s, bs, bs);
    InGridKeys(s, Coalesce(s), nbr, nbc);
  }

  /**
   * For any top-k selection: the result holds exactly k blocks, inside the
   * grid, coalesced, each tile the original sub-block at its coordinates.
   */
  lemma SelectionFacts(m: Matrix, bs: nat, nbr: nat, nbc: nat, sel: seq<nat>)
    requires InRange(sel, nbr * nbc) && Distinct(sel)
    ensures var t := FromSelection(m, bs, nbr, nbc, sel);
      && TensorOk(t) && Coalesced(t.block)
      && |t.block.entries| == |sel|
      && forall x :: 0 <= x < |t.block.entries| ==>
           t.block.entries[x].tile == Tile(m, bs, t.block.entries[x].row, t.block.entries[x].col)
  {
    var es := FromSelection(m, bs, nbr, nbc, sel).block.entries;
    SelectionEntries(m, bs, nbr, nbc, sel);
    forall x | 0 <= x < |es|
      ensures es[x].tile == Tile(m, bs, es[x].row, es[x].col)
    {
      var i :| 0 <= i < |sel| && es[x] == Picked(m, bs, nbr, nbc, sel)[i];
      PickedAt(m, bs, nbr, nbc, sel, i);
    }
  }

  /** For any top-k selection, no block left out scores above a block kept. */
  lemma SelectionTopK(m: Matrix, bs: nat, nbr: nat, nbc: nat, score: Matrix -> int, k: nat, sel: seq<nat>)
    requires IsTopK(Scores(m, bs, nbr, nbc, score), k, sel)
    ensures var es := FromSelection(m, bs, nbr, nbc, sel).block.entries;
      forall x, p, q :: 0 <= x < |es| && 0 <= p < nbr && 0 <= q < nbc && (p, q) !in Keys(es) ==>
        score(es[x].tile) >= score(Tile(m, bs, p, q))
  {
    var es := FromSelection(m, bs, nbr, nbc, sel).block.entries;
    forall x, p, q | 0 <= x < |es| && 0 <= p < nbr && 0 <= q < nbc && (p, q) !in Keys(es)
      ensures score(es[x].tile) >= score(Tile(m, bs, p, q))
    {
      KeptBeatsDropped(m, bs, nbr, nbc, score, k, sel, x, p, q);
    }
  }

  lemma TopKBeats(scores: seq<int>, k: nat, sel: seq<nat>, i: nat, j: nat)
    requires IsTopK(scores, k, sel) && i < |sel| && j < |scores| && j !in sel
    ensures scores[sel[i]] >= scores[j]
  {
  }

  /** Block (p, q) is scored at flat position p*nbc + q. */
  lemma ScoresAt(m: Matrix, bs: nat, nbr: nat, nbc: nat, score: Matrix -> int, p: nat, q: nat)
    requires p < nbr && q < nbc
    ensures 0 <= p * nbc + q < |Scores(m, bs, nbr, nbc, score)|
    ensures Scores(m, bs, nbr, nbc, score)[p * nbc + q] == score(Tile(m, bs, p, q))
  {
    InBlocks(nbr, nbc, p, q);
    DivModOf(p, nbc, q);
  }

  lemma KeptBeatsDropped(m: Matrix, bs: nat, nbr: nat, nbc: nat, score: Matrix -> int, k: nat, sel: seq<nat>, x: nat, p: nat, q: nat)
    requires IsTopK(Scores(m, bs, nbr, nbc, score), k, sel)
    requires x < |FromSelection(m, bs, nbr, nbc, sel).block.entries| && p < nbr && q < nbc
    requires (p, q) !in Keys(FromSelection(m, bs, nbr, nbc, sel).block.entries)
    ensures score(FromSelection(m, bs, nbr, nbc, sel).block.entries[x].tile) >= score(Tile(m, bs, p, q))
  {
    var scores := Scores(m, bs, nbr, nbc, score);
    var s := Picked(m, bs, nbr, nbc, sel);
    var es := FromSelection(m, bs, nbr, nbc, sel).block.entries;
    SelectionEntries(m, bs, nbr, nbc, sel);
    var i :| 0 <= i < |sel| && es[x] == s[i];
    PickedAt(m, bs, nbr, nbc, sel, i);
    ScoresAt(m, bs, nbr, nbc, score, s[i].row, s[i].col);
    ScoresAt(m, bs, nbr, nbc, score, p, q);
    SelectionMiss(m, bs, nbr, nbc, sel, p, q);
    TopKBeats(scores, k, sel, i, p * nbc + q);
  }

  /** A block whose coordinates were not picked came from a flat index not selected. */
  lemma SelectionMiss(m: Matrix, bs: nat, nbr: nat, nbc: nat, sel: seq<nat>, p: nat, q: nat)
    requires InRange(sel, nbr * nbc) && q < nbc
    requires (p, q) !in Keys(Picked(m, bs, nbr, nbc, sel))
    ensures p * nbc + q !in sel
  {
    var s := Picked(m, bs, nbr, nbc, sel);
    forall k | 0 <= k < |sel|
      ensures sel[k] != p * nbc + q
    {
      PickedAt(m, bs, nbr, nbc, sel, k);
      KeysIndex(s, k);
      if sel[k] == p * nbc + q {
        FlatUnique(s[k].row, s[k].col, p, q, nbc);
      }
    }
  }

  /** Kept elements over matrix elements never exceed the density num/den. */
  lemma KeptWithinDensity(rows: nat, cols: nat, bs: nat, num: nat, den: nat)
    requires bs > 0 && den > 0
    ensures BlockCount(rows * cols, bs, num, den) * (bs * bs) * den <= num * (rows * cols)
  {
    var numel: nat := rows * cols;
    var nnz := BlockCount(numel, bs, num, den);
    var y := den * (bs * bs);
    assert nnz * y <= num * numel;
    assert nnz * (bs * bs) * den == nnz * y;
  }

  /** A successful prune is FromSelection of some top-k selection of the block scores. */
  lemma PruneSelection(m: Matrix, bs: nat, num: int, den: nat, score: Matrix -> int) returns (sel: seq<nat>)
    requires Wf(m) && den > 0 && MagnitudePrune(m, bs, num, den, score).Ok?
    ensures bs > 0
    ensures IsTopK(Scores(m, bs, m.rows / bs, m.cols / bs, score), BlockCount(m.rows * m.cols, bs, num, den), sel)
    ensures MagnitudePrune(m, bs, num, den, score).value == FromSelection(m, bs, m.rows / bs, m.cols / bs, sel)
  {
    assert bs > 0;
    var nbr, nbc := m.rows / bs, m.cols / bs;
    var nnz := BlockCount(m.rows * m.cols, bs, num, den);
    assert 0 <= nnz <= nbr * nbc;
    var scores := Scores(m, bs, nbr, nbc, score);
    sel := TopK(scores, nnz);
    TopKIsTopK(scores, nnz);
  }

  /**
   * The pruned tensor is a coalesced (rows/bs, cols/bs, bs, bs) block-COO
   * tensor with exactly int(density * numel / bs^2) blocks.
   */
  lemma PruneStructure(m: Matrix, bs: nat, num: int, den: nat, score: Matrix -> int)
    requires Wf(m) && den > 0 && MagnitudePrune(m, bs, num, den, score).Ok?
    ensures var t := MagnitudePrune(m, bs, num, den, score).value;
      && TensorOk(t) && t.layout == SparseCoo && t.coalesced && Coalesced(t.block)
      && t.sparseDim == 2 && t.denseDim == 2
      && t.block.rows == m.rows / bs && t.block.cols == m.cols / bs && t.block.br == bs && t.block.bc == bs
      && |t.block.entries| == BlockCount(m.rows * m.cols, bs, num, den)
  {
    var sel := PruneSelection(m, bs, num, den, score);
    SelectionFacts(m, bs, m.rows / bs, m.cols / bs, sel);
  }

  lemma SelectionTiles(m: Matrix, bs: nat, nbr: nat, nbc: nat, sel: seq<nat>)
    requires InRange(sel, nbr * nbc) && Distinct(sel)
    ensures TilesFrom(m, bs, FromSelection(m, bs, nbr, nbc, sel).block.entries)
  {
    SelectionFacts(m, bs, nbr, nbc, sel);
    var es := FromSelection(m, bs, nbr, nbc, sel).block.entries;
    forall x, a, b | 0 <= x < |es| && 0 <= a < bs && 0 <= b < bs
      ensures Get(es[x].tile, a, b) == Get(m, es[x].row * bs + a, es[x].col * bs + b)
    {
      assert es[x].tile == Tile(m, bs, es[x].row, es[x].col);
    }
  }

  /** Every stored block holds the values of m at its block coordinates. */
  predicate TilesFrom(m: Matrix, bs: nat, es: seq<Entry>) {
    forall x, a, b :: 0 <= x < |es| && 0 <= a < bs && 0 <= b < bs ==>
      Get(es[x].tile, a, b) == Get(m, es[x].row * bs + a, es[x].col * bs + b)
  }

  /** Every block of the pruned tensor holds the original values of the matrix at its block coordinates. */
  lemma PruneTiles(m: Matrix, bs: nat, num: int, den: nat, score: Matrix -> int)
    requires Wf(m) && den > 0 && MagnitudePrune(m, bs, num, den, score).Ok?
    ensures TilesFrom(m, bs, MagnitudePrune(m, bs, num, den, score).value.block.entries)
  {
    var sel := PruneSelection(m, bs, num, den, score);
    var nbr, nbc := m.rows / bs, m.cols / bs;
    assert |Scores(m, bs, nbr, nbc, score)| == nbr * nbc;
    SelectionTiles(m, bs, nbr, nbc, sel);
  }

  /** No block left out of the pruned tensor scores above a block kept. */
  lemma PruneKeepsBest(m: Matrix, bs: nat, num: int, den: nat, score: Matrix -> int)
    requires Wf(m) && den > 0 && MagnitudePrune(m, bs, num, den, score).Ok?
    ensures var es := MagnitudePrune(m, bs, num, den, score).value.block.entries;
      forall x, p, q :: 0 <= x < |es| && 0 <= p < m.rows / bs && 0 <= q < m.cols / bs && (p, q) !in Keys(es) ==>
        score(es[x].tile) >= score(Tile(m, bs, p, q))
  {
    var sel := PruneSelection(m, bs, num, den, score);
    SelectionTopK(m, bs, m.rows / bs, m.cols / bs, score, |sel|, sel);
  }

  /** For a non-negative density, kept elements / matrix elements <= density. */
  lemma PruneWithinDensity(m: Matrix, bs: nat, num: nat, den: nat, score: Matrix -> int)
    requires Wf(m) && den > 0 && MagnitudePrune(m, bs, num, den, score).Ok?
    ensures |MagnitudePrune(m, bs, num, den, score).value.block.entries| * (bs * bs) * den <= num * (m.rows * m.cols)
  {
    PruneStructure(m, bs, num, den, score);
    KeptWithinDensity(m.rows, m.cols, bs, num, den);
  }

  function Elements(s: seq<nat>): set<nat> {
    set v | v in s
  }

  /** A duplicate-free list of n indices below n holds every index below n. */
  lemma DistinctCovers(s: seq<nat>, n: nat, x: nat)
    requires |s| == n && InRange(s, n) && Distinct(s) && x < n
    ensures x in s
  {
    var elems, below := Elements(s), Elements(Range(n));
    DistinctCard(s);
    DistinctCard(Range(n));
    if x !in s {
      assert Range(n)[x] == x;
      var rest := below - {x};
      forall v | v in elems
        ensures v in rest
      {
        assert Range(n)[v] == v;
      }
      assert |rest| == n - 1;
      SubsetCard(elems, rest);
      assert false;
    }
  }

  lemma {:induction false} DistinctCard(s: seq<nat>)
    requires Distinct(s)
    ensures |Elements(s)| == |s|
  {
    if s != [] {
      var t := s[1..];
      DistinctCard(t);
      assert Elements(s) == {s[0]} + Elements(t);
      assert s[0] !in t;
      assert s[0] !in Elements(t);
    }
  }

  lemma SubsetCard(a: set<nat>, b: set<nat>)
    requires a <= b
    ensures |a| <= |b|
  {
    assert b == a + (b - a);
  }

  /** With every block selected, block (p, q) is stored, holding the original tile. */
  lemma FullSelectionHas(m: Matrix, bs: nat, nbr: nat, nbc: nat, sel: seq<nat>, p: nat, q: nat) returns (k: nat)
    requires |sel| == nbr * nbc && InRange(sel, nbr * nbc) && Distinct(sel)
    requires p < nbr && q < nbc
    ensures var es := FromSelection(m, bs, nbr, nbc, sel).block.entries;
      k < |es| && es[k].row == p && es[k].col == q && es[k].tile == Tile(m, bs, p, q)
  {
    var es := FromSelection(m, bs, nbr, nbc, sel).block.entries;
    var s := Picked(m, bs, nbr, nbc, sel);
    InBlocks(nbr, nbc, p, q);
    DistinctCovers(sel, nbr * nbc, p * nbc + q);
    var x :| 0 <= x < |sel| && sel[x] == p * nbc + q;
    PickedAt(m, bs, nbr, nbc, sel, x);
    FlatUnique(s[x].row, s[x].col, p, q, nbc);
    KeysIndex(s, x);
    SelectionEntries(m, bs, nbr, nbc, sel);
    SelectionFacts(m, bs, nbr, nbc, sel);
    KeysHas(es, (p, q));
    k :| 0 <= k < |es| && Key(es[k]) == (p, q);
  }

  lemma DivModSplit(i: nat, bs: nat)
    requires bs > 0
    ensures i == (i / bs) * bs + i % bs && 0 <= i % bs < bs
  {
  }

  /** With every block selected, element (i, j) of the dense result is element (i, j) of m. */
  lemma FullSelectionAt(m: Matrix, bs: nat, nbr: nat, nbc: nat, sel: seq<nat>, i: nat, j: nat)
    requires bs > 0 && |sel| == nbr * nbc && InRange(sel, nbr * nbc) && Distinct(sel)
    requires i < nbr * bs && j < nbc * bs
    ensures Get(ToDense(FromSelection(m, bs, nbr, nbc, sel).block), i, j) == Get(m, i, j)
  {
    var blk := FromSelection(m, bs, nbr, nbc, sel).block;
    DivBound(i, bs, nbr);
    DivBound(j, bs, nbc);
    var k := FullSelectionHas(m, bs, nbr, nbc, sel, i / bs, j / bs);
    SelectionFacts(m, bs, nbr, nbc, sel);
    StoredTileAt(blk, m, bs, k, i, j);
  }

  /** A coalesced tensor storing the tile of m that covers (i, j) has element (i, j) of m there. */
  lemma StoredTileAt(blk: BlockCoo, m: Matrix, bs: nat, k: nat, i: nat, j: nat)
    requires Coalesced(blk) && blk.br == bs && blk.bc == bs && bs > 0
    requires i < blk.rows * bs && j < blk.cols * bs
    requires k < |blk.entries| && blk.entries[k].row == i / bs && blk.entries[k].col == j / bs
    requires blk.entries[k].tile == Tile(m, bs, i / bs, j / bs)
    ensures Get(ToDense(blk), i, j) == Get(m, i, j)
  {
    DivModSplit(i, bs);
    DivModSplit(j, bs);
    ToDenseCoalesced(blk, i, j);
    assert Get(ToDense(blk), i, j) == Get(blk.entries[k].tile, i % bs, j % bs);
  }

  /** At density 1 with a block size dividing both sides, the reshape keeps every element and every block is kept. */
  lemma FullDensityCount(rows: nat, cols: nat, bs: nat)
    requires bs > 0 && rows % bs == 0 && cols % bs == 0
    ensures rows == (rows / bs) * bs && cols == (cols / bs) * bs
    ensures (rows / bs) * bs * (cols / bs) * bs == rows * cols
    ensures BlockCount(rows * cols, bs, 1, 1) == (rows / bs) * (cols / bs)
  {
    var nbr, nbc := rows / bs, cols / bs;
    var n, s := nbr * nbc, bs * bs;
    assert rows == nbr * bs && cols == nbc * bs;
    Regroup(nbr, bs, nbc, bs);
    assert rows * cols == n * s;
    DivModOf(n, s, 0);
    assert BlockCount(rows * cols, bs, 1, 1) == TruncDiv(n * s + 0, s);
  }

  lemma Regroup(a: int, b: int, c: int, d: int)
    ensures a * b * c * d == (a * c) * (b * d) && (a * b) * (c * d) == (a * c) * (b * d)
  {
  }

  /** Selecting every block of an exactly tiled matrix and scattering the tiles back rebuilds the matrix. */
  lemma FullSelectionDense(m: Matrix, bs: nat, nbr: nat, nbc: nat, sel: seq<nat>)
    requires Wf(m) && bs > 0 && m.rows == nbr * bs && m.cols == nbc * bs
    requires |sel| == nbr * nbc && InRange(sel, nbr * nbc) && Distinct(sel)
    ensures ToDense(FromSelection(m, bs, nbr, nbc, sel).block) == m
  {
    var d := ToDense(FromSelection(m, bs, nbr, nbc, sel).block);
    forall i, j | 0 <= i < m.rows && 0 <= j < m.cols
      ensures Get(d, i, j) == Get(m, i, j)
    {
      FullSelectionAt(m, bs, nbr, nbc, sel, i, j);
    }
    Ext(d, m);
  }

  /** At density 1 with a block size dividing both sides, pruning keeps everything: to_dense(prune(M)) == M. */
  lemma FullDensityRoundTrip(m: Matrix, bs: nat, score: Matrix -> int)
    requires Wf(m) && bs > 0 && m.rows % bs == 0 && m.cols % bs == 0
    ensures MagnitudePrune(m, bs, 1, 1, score).Ok?
    ensures ToDense(MagnitudePrune(m, bs, 1, 1, score).value.block) == m
  {
    var nbr, nbc := m.rows / bs, m.cols / bs;
    FullDensityCount(m.rows, m.cols, bs);
    PruneFails(m, bs, 1, 1, score);
    var sel := PruneSelection(m, bs, 1, 1, score);
    FullSelectionDense(m, bs, nbr, nbc, sel);
  }
}
