/**
 * Dense 2-D tensors with integer entries, and the pieces of dense linear
 * algebra that the block-sparse operations are stated against: element
 * access, transpose, matrix product and finite sums.
 *
 * The shape is kept explicitly, so that a 0 x n and an n x 0 tensor are
 * different values, as they are for the tensor library.
 */
module Dense {

  datatype Matrix = Matrix(rows: nat, cols: nat, data: seq<seq<int>>)

  /** The data really has the declared shape. */
  predicate Wf(m: Matrix) {
    |m.data| == m.rows && forall i :: 0 <= i < |m.data| ==> |m.data[i]| == m.cols
  }

  predicate Shaped(m: Matrix, rows: nat, cols: nat) {
    Wf(m) && m.rows == rows && m.cols == cols
  }

  /** Element (i, j); 0 outside the data. */
  function Get(m: Matrix, i: int, j: int): int {
    if 0 <= i < |m.data| && 0 <= j < |m.data[i]| then m.data[i][j] else 0
  }

  /** The rows x cols tensor whose element (i, j) is f(i, j). */
  function Build(rows: nat, cols: nat, f: (int, int) -> int): (m: Matrix)
    ensures Shaped(m, rows, cols)
    ensures forall i, j :: 0 <= i < rows && 0 <= j < cols ==> Get(m, i, j) == f(i, j)
  {
    Matrix(rows, cols, seq(rows, i => seq(cols, j => f(i, j))))
  }

  function Zeros(rows: nat, cols: nat): (m: Matrix)
    ensures Shaped(m, rows, cols)
    ensures forall i, j :: Get(m, i, j) == 0
  {
    Build(rows, cols, (i, j) => 0)
  }

  /** Two well-formed tensors of one shape that agree everywhere are equal. */
  lemma Ext(a: Matrix, b: Matrix)
    requires Wf(a) && Wf(b) && a.rows == b.rows && a.cols == b.cols
    requires forall i, j :: 0 <= i < a.rows && 0 <= j < a.cols ==> Get(a, i, j) == Get(b, i, j)
    ensures a == b
  {
    forall i | 0 <= i < a.rows
      ensures a.data[i] == b.data[i]
    {
      forall j | 0 <= j < a.cols
        ensures a.data[i][j] == b.data[i][j]
      {
        assert Get(a, i, j) == Get(b, i, j);
      }
    }
  }

  /** A well-formed tensor is zero outside its shape. */
  lemma GetOutside(m: Matrix, i: int, j: int)
    requires Wf(m)
    requires !(0 <= i < m.rows && 0 <= j < m.cols)
    ensures Get(m, i, j) == 0
  {
  }

  /** Element-wise sum of two tensors of the shape of a. */
  function Add(a: Matrix, b: Matrix): (m: Matrix)
    ensures Shaped(m, a.rows, a.cols)
  {
    Build(a.rows, a.cols, (i, j) => Get(a, i, j) + Get(b, i, j))
  }

  lemma GetAdd(a: Matrix, b: Matrix, i: int, j: int)
    requires Wf(a) && Wf(b) && a.rows == b.rows && a.cols == b.cols
    ensures Get(Add(a, b), i, j) == Get(a, i, j) + Get(b, i, j)
  {
  }

  /** The 2-D transpose. */
  function Transpose(m: Matrix): (t: Matrix)
    ensures Shaped(t, m.cols, m.rows)
  {
    Build(m.cols, m.rows, (i, j) => Get(m, j, i))
  }

  lemma GetTranspose(m: Matrix, i: int, j: int)
    requires Wf(m)
    ensures Get(Transpose(m), i, j) == Get(m, j, i)
  {
  }

  lemma TransposeTranspose(m: Matrix)
    requires Wf(m)
    ensures Transpose(Transpose(m)) == m
  {
    forall i, j | 0 <= i < m.rows && 0 <= j < m.cols
      ensures Get(Transpose(Transpose(m)), i, j) == Get(m, i, j)
    {
      GetTranspose(Transpose(m), i, j);
      GetTranspose(m, j, i);
    }
    Ext(Transpose(Transpose(m)), m);
  }

  /** The sum f(0) + ... + f(n - 1). */
  function Sum(n: nat, f: int -> int): int {
    if n == 0 then 0 else Sum(n - 1, f) + f(n - 1)
  }

  /** The dot product of row i of a with column j of b, over n terms. */
  function Dot(a: Matrix, b: Matrix, i: int, j: int, n: nat): int {
    Sum(n, k => Get(a, i, k) * Get(b, k, j))
  }

  /** The matrix product a @ b. */
  function MatMul(a: Matrix, b: Matrix): (m: Matrix)
    requires a.cols == b.rows
    ensures Shaped(m, a.rows, b.cols)
  {
    Build(a.rows, b.cols, (i, j) => Dot(a, b, i, j, a.cols))
  }

  lemma {:induction false} SumExt(n: nat, f: int -> int, g: int -> int)
    requires forall k :: 0 <= k < n ==> f(k) == g(k)
    ensures Sum(n, f) == Sum(n, g)
  {
    if n > 0 {
      SumExt(n - 1, f, g);
    }
  }

  lemma {:induction false} SumZero(n: nat, f: int -> int)
    requires forall k :: 0 <= k < n ==> f(k) == 0
    ensures Sum(n, f) == 0
  {
    if n > 0 {
      SumZero(n - 1, f);
    }
  }

  lemma {:induction false} SumAdd(n: nat, f: int -> int, g: int -> int, h: int -> int)
    requires forall k :: 0 <= k < n ==> h(k) == f(k) + g(k)
    ensures Sum(n, h) == Sum(n, f) + Sum(n, g)
  {
    if n > 0 {
      SumAdd(n - 1, f, g, h);
    }
  }

  lemma {:induction false} SumScale(n: nat, c: int, f: int -> int, g: int -> int)
    requires forall k :: 0 <= k < n ==> g(k) == c * f(k)
    ensures Sum(n, g) == c * Sum(n, f)
  {
    if n > 0 {
      SumScale(n - 1, c, f, g);
    }
  }

  /** A sum whose terms vanish except at p is its term at p. */
  lemma {:induction false} SumSingle(n: nat, p: nat, f: int -> int)
    requires p < n
    requires forall k :: 0 <= k < n && k != p ==> f(k) == 0
    ensures Sum(n, f) == f(p)
  {
    if n - 1 == p {
      SumZero(n - 1, f);
    } else {
      SumSingle(n - 1, p, f);
    }
  }

  /** Splitting a sum at n. */
  lemma {:induction false} SumSplit(n: nat, m: nat, f: int -> int)
    ensures Sum(n + m, f) == Sum(n, f) + Sum(m, a => f(n + a))
  {
    if m > 0 {
      SumSplit(n, m - 1, f);
    }
  }

  /** A sum over q*s terms, grouped into q consecutive groups of s. */
  lemma {:induction false} SumBlocks(q: nat, s: nat, f: int -> int)
    ensures Sum(q * s, f) == Sum(q, p => Sum(s, a => f(p * s + a)))
  {
    if q > 0 {
      var n := (q - 1) * s;
      SumBlocks(q - 1, s, f);
      MulSucc(q - 1, s);
      SumSplit(n, s, f);
      SumExt(s, a => f(n + a), a => f((q - 1) * s + a));
    }
  }

  lemma MulMono(x: int, y: int, s: int)
    requires x <= y && 0 <= s
    ensures x * s <= y * s
  {
    assert y * s - x * s == (y - x) * s;
  }

  lemma MulSucc(a: int, n: int)
    ensures (a + 1) * n == a * n + n
  {
  }

  /** q*s + a divided by s leaves quotient q and remainder a. */
  lemma DivModOf(q: int, s: int, a: int)
    requires 0 < s && 0 <= a < s
    ensures (q * s + a) / s == q && (q * s + a) % s == a
  {
    var x := q * s + a;
    var d := x / s;
    assert d * s <= x < d * s + s;
    if d < q {
      MulMono(d + 1, q, s);
      assert false;
    } else if d > q {
      MulMono(q + 1, d, s);
      assert false;
    }
  }

  lemma InBlocks(q: nat, s: nat, p: nat, a: nat)
    requires p < q && a < s
    ensures p * s + a < q * s
  {
    MulMono(p + 1, q, s);
  }

  /** An index below n*s falls in one of the n groups of s. */
  lemma DivBound(i: int, s: nat, n: nat)
    requires 0 <= i < n * s
    ensures s > 0 && 0 <= i / s < n
  {
    if i / s >= n {
      MulMono(n, i / s, s);
    }
  }

  /** Term a of group p (starting at base == p*s) of a sum laid out as in SumOneBlock. */
  lemma OneBlockTerm(q: nat, s: nat, c: nat, p: nat, base: int, f: int -> int, g: int -> int, a: int)
    requires 0 < s && c < q && p < q && base == p * s && 0 <= a < s
    requires forall j :: 0 <= j < q * s ==> f(j) == if j / s == c then g(j % s) else 0
    ensures f(base + a) == if p == c then g(a) else 0
  {
    DivModOf(p, s, a);
    InBlocks(q, s, p, a);
    var j := base + a;
    assert 0 <= j < q * s;
    assert j / s == p && j % s == a;
  }

  /** Group p (starting at base == p*s) of a sum laid out as in SumOneBlock. */
  lemma OneBlockGroup(q: nat, s: nat, c: nat, p: nat, base: int, f: int -> int, g: int -> int)
    requires 0 < s && c < q && p < q && base == p * s
    requires forall j :: 0 <= j < q * s ==> f(j) == if j / s == c then g(j % s) else 0
    ensures Sum(s, a => f(base + a)) == if p == c then Sum(s, g) else 0
  {
    var h := a => f(base + a);
    forall a | 0 <= a < s
      ensures h(a) == if p == c then g(a) else 0
    {
      OneBlockTerm(q, s, c, p, base, f, g, a);
    }
    if p == c {
      SumExt(s, h, g);
    } else {
      SumZero(s, h);
    }
  }

  /**
   * A sum over q*s terms of which only those in group c can be non-zero,
   * the a-th of them being g(a), is the sum of g over one group.
   */
  lemma SumOneBlock(q: nat, s: nat, c: nat, f: int -> int, g: int -> int)
    requires 0 < s && c < q
    requires forall j :: 0 <= j < q * s ==> f(j) == if j / s == c then g(j % s) else 0
    ensures Sum(q * s, f) == Sum(s, g)
  {
    SumBlocks(q, s, f);
    var outer := p => Sum(s, a => f(p * s + a));
    forall p | 0 <= p < q
      ensures outer(p) == if p == c then Sum(s, g) else 0
    {
      OneBlockGroup(q, s, c, p, p * s, f, g);
    }
    SumSingle(q, c, outer);
  }

  /** Exchanging the order of a double sum. */
  lemma {:induction false} SumSwap(n: nat, m: nat, g: (int, int) -> int)
    ensures Sum(n, j => Sum(m, k => g(j, k))) == Sum(m, k => Sum(n, j => g(j, k)))
  {
    if n > 0 {
      SumSwap(n - 1, m, g);
      var inner := j => Sum(m, k => g(j, k));
      assert Sum(n, inner) == Sum(n - 1, inner) + Sum(m, k => g(n - 1, k));
      SumAdd(m, k => Sum(n - 1, j => g(j, k)), k => g(n - 1, k), k => Sum(n, j => g(j, k)));
    } else {
      SumZero(m, k => Sum(n, j => g(j, k)));
    }
  }

  /** (A^T B^T)^T == B A. */
  lemma MatMulTranspose(a: Matrix, b: Matrix)
    requires Wf(a) && Wf(b) && a.rows == b.cols
    ensures Transpose(MatMul(Transpose(a), Transpose(b))) == MatMul(b, a)
  {
    var l := Transpose(MatMul(Transpose(a), Transpose(b)));
    var r := MatMul(b, a);
    forall i, j | 0 <= i < b.rows && 0 <= j < a.cols
      ensures Get(l, i, j) == Get(r, i, j)
    {
      MatMulTransposeAt(a, b, i, j);
    }
    Ext(l, r);
  }

  lemma MatMulTransposeAt(a: Matrix, b: Matrix, i: int, j: int)
    requires Wf(a) && Wf(b) && a.rows == b.cols
    requires 0 <= i < b.rows && 0 <= j < a.cols
    ensures Get(Transpose(MatMul(Transpose(a), Transpose(b))), i, j) == Get(MatMul(b, a), i, j)
  {
    var p := MatMul(Transpose(a), Transpose(b));
    assert Get(Transpose(p), i, j) == Get(p, j, i);
    assert Get(p, j, i) == Sum(a.rows, k => Get(Transpose(a), j, k) * Get(Transpose(b), k, i));
    forall k | 0 <= k < a.rows
      ensures Get(Transpose(a), j, k) * Get(Transpose(b), k, i) == Get(b, i, k) * Get(a, k, j)
    {
      var x, y := Get(a, k, j), Get(b, i, k);
      GetTranspose(a, j, k);
      GetTranspose(b, k, i);
      assert x * y == y * x;
    }
    SumExt(a.rows, k => Get(Transpose(a), j, k) * Get(Transpose(b), k, i), k => Get(b, i, k) * Get(a, k, j));
    assert Get(MatMul(b, a), i, j) == Sum(b.cols, k => Get(b, i, k) * Get(a, k, j));
  }
}
